/** log.c on top of the buffer cache: log_write, commit, installation and recovery. What each of them
    writes to disk is stated as one of the write lists of LogDisk, whose crash behaviour is proved there. */
module LogManager {
  import opened Bytes
  import opened LogDisk
  import opened BufferCache
  import Protocol = LogProtocol

  class Log {
    const cache: BCache
    const lay: Layout            // log.start and log.size
    var outstanding: nat
    var committing: bool
    var n: nat                   // log.lh.n
    const block: array<nat>      // log.lh.block

    /** The block numbers in the in-memory header. */
    ghost function Blocks(): seq<nat>
      requires n <= block.Length
      reads this`n, block
    {
      block[..n]
    }

    ghost predicate HeaderInv()
      reads this`n, block
    {
      && block.Length == LOGSIZE && n <= LOGSIZE
      && lay.Fits(cache.origin) && GoodBlocks(lay, |cache.origin|, Blocks())
    }

    ghost predicate DistinctInv()
      requires n <= block.Length
      reads this`n, block
    {
      forall i, j :: 0 <= i < j < n ==> block[i] != block[j]
    }

    static function Elems(s: seq<nat>): set<nat> { set b | b in s }

    /** The first k blocks of the header, as a set. */
    ghost function Named(k: nat): set<nat>
      requires k <= block.Length
      reads block
    {
      Elems(block[..k])
    }

    /** The pinned buffers are those of the blocks named in the header. */
    ghost predicate PinInv()
      requires n <= block.Length
      reads this`n, block, cache.bufs`dirty, cache.bufs`blockno
    {
      cache.Pinned() == Named(n)
    }

    /** Between commits the header on disk is empty. */
    ghost predicate ErasedInv()
      reads cache`disk
    {
      WellFormed(lay, cache.disk) && HeaderCount(cache.disk[lay.start]) == 0
    }

    ghost predicate Valid()
      reads this, block, cache, cache.head, cache.bufs, cache.ring
    {
      cache.Valid() && HeaderInv() && DistinctInv() && PinInv() && ErasedInv()
    }

    /** initlog, up to the recovery. */
    constructor (cache: BCache, lay: Layout)
      ensures this.cache == cache && this.lay == lay && n == 0 && outstanding == 0 && !committing
      ensures block.Length == LOGSIZE && fresh(block)
    {
      this.cache, this.lay := cache, lay;
      outstanding, committing, n := 0, false, 0;
      block := new nat[LOGSIZE](i => 0);
    }

    // -------------------------------------------------------------- log_write

    /** The scan for log absorption. */
    method Search(b: nat) returns (i: nat)
      requires n <= block.Length
      ensures i <= n && (i < n ==> block[i] == b) && forall j :: 0 <= j < i ==> block[j] != b
    {
      i := 0;
      while i < n
        invariant i <= n && forall j :: 0 <= j < i ==> block[j] != b
      {
        if block[i] == b {
          break;
        }
        i := i + 1;
      }
    }

    /** log_write: name the block in the header, unless it is there already, and pin its buffer. The disk
        does not change. Panics exactly when the log is full or no operation is in progress. */
    method LogWrite(b: Buf) returns (panicked: bool)
      requires cache.DataValid() && cache.HistoryInv() && HeaderInv() && DistinctInv() && PinInv()
      requires b in cache.bufs && b.locked && !lay.InLog(b.blockno)
      modifies this`n, block, b`dirty
      ensures cache.DataValid() && HeaderInv() && DistinctInv() && PinInv()
      ensures panicked <==> old(n) >= LOGSIZE || old(n) >= lay.size - 1 || outstanding < 1
      ensures panicked ==> n == old(n) && Blocks() == old(Blocks()) && b.dirty == old(b.dirty)
      ensures !panicked ==> b.dirty && Blocks() == Absorb(old(Blocks()), b.blockno)
    {
      if n >= LOGSIZE || n >= lay.size - 1 || outstanding < 1 {
        return true;
      }
      assert cache.Coherent(b);
      AddToHeader(b.blockno);
      cache.Pin(b);
      return false;
    }

    static function Absorb(blocks: seq<nat>, b: nat): seq<nat> {
      if b in blocks then blocks else blocks + [b]
    }

    method AddToHeader(b: nat)
      requires HeaderInv() && DistinctInv() && n < LOGSIZE && n < lay.size - 1 && b < |cache.origin| && !lay.InLog(b)
      modifies this`n, block
      ensures HeaderInv() && DistinctInv() && Blocks() == Absorb(old(Blocks()), b) && Named(n) == old(Named(n)) + {b}
    {
      var i := Search(b);
      assert i < n ==> b in Named(n);
      block[i] := b;
      if i == n {
        n := n + 1;
        assert Blocks() == old(Blocks()) + [b];
      } else {
        assert Blocks() == old(Blocks());
      }
    }

    // -------------------------------------------------------------- begin_op and end_op

    /** The state s of the transition system has this header and this many operations in progress. */
    ghost predicate Mirrors(s: Protocol.State)
      requires n <= block.Length
      reads this`n, this`outstanding, this`committing, block
    {
      && s.lh == Blocks() && Protocol.Outstanding(s.procs) == outstanding
      && if committing then s.phase.Committing? else s.phase.Running?
    }

    /** One turn of the loop in begin_op, by process p: it begins an operation or goes to sleep, as the transition
        system does from any state s that the log is in. An admitted operation leaves room for all operations in
        progress to log their whole budgets. */
    method BeginOp(ghost s: Protocol.State, ghost p: nat) returns (admitted: bool, ghost s': Protocol.State)
      requires n <= block.Length && Mirrors(s) && p < |s.procs| && s.procs[p].Idle?
      modifies this`outstanding
      ensures var a := if admitted then Protocol.Begin(p) else Protocol.Sleep(p);
        Protocol.Enabled(lay, s, a) && s' == Protocol.Do(lay, s, a)
      ensures Mirrors(s') && (admitted ==> n + outstanding * MAXOPBLOCKS <= LOGSIZE)
      ensures admitted <==> !committing && n + (old(outstanding) + 1) * MAXOPBLOCKS <= LOGSIZE
      ensures outstanding == old(outstanding) + if admitted then 1 else 0
    {
      if committing {
        admitted := false;
      } else if n + (outstanding + 1) * MAXOPBLOCKS > LOGSIZE {
        admitted := false;
      } else {
        outstanding := outstanding + 1;
        admitted := true;
      }
      s' := Protocol.Do(lay, s, if admitted then Protocol.Begin(p) else Protocol.Sleep(p));
      Protocol.CountUpdate(s.procs, p, s'.procs[p]);
    }

    static lemma TakeStep<T>(pre: seq<T>, s: seq<T>, k: nat)
      requires k < |s|
      ensures pre + s[..k + 1] == pre + s[..k] + [s[k]]
    {
    }

    // -------------------------------------------------------------- the parts of commit and recovery

    /** What the parts of commit and recovery rely on and keep: nobody holds a buffer, buffer x can be
        recycled, and the log's own blocks are not pinned. */
    ghost predicate Ready(x: Buf)
      reads this, cache, cache.head, cache.bufs, cache.ring, x
    {
      && cache.Valid() && cache.NoLocks() && x in cache.bufs && cache.Recyclable(x)
      && forall b :: lay.InLog(b) ==> b !in cache.Pinned()
    }

    /** write_log: what the cache holds of the named blocks goes to the log slots. */
    method WriteLog(ghost x: Buf)
      requires Ready(x) && HeaderInv() && PinInv()
      modifies cache`disk, cache`latest, cache`writes, cache`ring, cache`clock, cache.head, cache.bufs
      ensures Ready(x) && cache.Pinned() == old(cache.Pinned())
      ensures var ws := LogPart(lay, Blocks(), old(cache.latest));
              && InRange(|cache.origin|, ws) && |old(cache.latest)| == |cache.origin|
              && cache.writes == old(cache.writes) + ws
              && cache.latest == After(old(cache.latest), ws, |ws|)
    {
      ghost var was := cache.latest;
      ghost var ws := LogPart(lay, Blocks(), was);
      assert old(cache.writes) + ws[..0] == cache.writes;
      for tail := 0 to n
        invariant Ready(x) && cache.Pinned() == old(cache.Pinned())
        invariant cache.writes == old(cache.writes) + ws[..tail] && cache.latest == After(was, ws, tail)
      {
        WriteLogRound(tail, was, ws, x);
        TakeStep(old(cache.writes), ws, tail);
      }
      assert ws[..n] == ws;
    }

    method WriteLogRound(tail: nat, ghost was: Disk, ghost ws: seq<Write>, ghost x: Buf)
      requires Ready(x) && HeaderInv() && PinInv() && tail < n && |was| == |cache.origin|
      requires ws == LogPart(lay, Blocks(), was) && cache.latest == After(was, ws, tail)
      modifies cache`disk, cache`latest, cache`writes, cache`ring, cache`clock, cache.head, cache.bufs
      ensures Ready(x) && cache.Pinned() == old(cache.Pinned())
      ensures cache.writes == old(cache.writes) + [ws[tail]] && cache.latest == After(was, ws, tail + 1)
    {
      assert block[tail] == Blocks()[tail];
      Untouched(was, ws, tail, block[tail]);
      cache.CopyToLog(lay.start + tail + 1, block[tail], x, x);
    }

    /** Put the in-memory header into the buffer of the header block. */
    method FillHeader(b: Buf)
      requires cache.DataValid() && HeaderInv() && b in cache.bufs && b.locked
      modifies cache`latest, b`data
      ensures cache.DataValid() && b.data == EncodeHeader(old(b.data), Blocks())
      ensures cache.latest == old(cache.latest)[b.blockno := b.data]
    {
      assert cache.Coherent(b);
      ghost var h := PutWord(b.data, 0, n);
      cache.Store(b, PutWord(b.data, 0, n));
      for i := 0 to n
        invariant cache.DataValid() && b.data == PutEntries(h, Blocks(), i)
        invariant cache.latest == old(cache.latest)[b.blockno := b.data]
      {
        assert block[i] == Blocks()[i];
        cache.Store(b, PutWord(b.data, 1 + i, block[i]));
      }
    }

    method PrepareHead(ghost x: Buf) returns (b: Buf)
      requires Ready(x) && HeaderInv()
      modifies cache`latest, cache.bufs`dev, cache.bufs`blockno, cache.bufs`valid, cache.bufs`refcnt
      modifies cache.bufs`locked, cache.bufs`data
      ensures cache.Valid() && cache.Pinned() == old(cache.Pinned())
      ensures b in cache.bufs && b.locked && b.blockno == lay.start < |old(cache.latest)|
      ensures b.data == EncodeHeader(old(cache.latest)[lay.start], Blocks())
      ensures cache.latest == old(cache.latest)[lay.start := b.data]
      ensures forall z :: z in cache.bufs && z != b ==> !z.locked
      ensures !x.dirty && x.refcnt == if x == b then 1 else 0
    {
      b := cache.ReadOne(lay.start, x, x);
      FillHeader(b);
    }

    /** write_head: the header block on disk names the blocks of the in-memory header. */
    method WriteHead(ghost x: Buf)
      requires Ready(x) && HeaderInv()
      modifies cache`disk, cache`latest, cache`writes, cache`ring, cache`clock, cache.head, cache.bufs
      ensures Ready(x) && cache.Pinned() == old(cache.Pinned()) && lay.start < |old(cache.latest)|
      ensures var h := EncodeHeader(old(cache.latest)[lay.start], Blocks());
              && cache.writes == old(cache.writes) + [Write(lay.start, h)]
              && cache.latest == old(cache.latest)[lay.start := h]
    {
      assert lay.InLog(lay.start);
      var b := PrepareHead(x);
      cache.WriteAndRelease(b);
    }

    /** The home writes that a log with these slots calls for. */
    static ghost function SlotWrites(lay: Layout, blocks: seq<nat>, view: Disk): (ws: seq<Write>)
      requires lay.Fits(view) && GoodBlocks(lay, |view|, blocks)
      ensures InRange(|view|, ws) && |ws| == |blocks|
    {
      seq(|blocks|, i requires 0 <= i < |blocks| => Write(blocks[i], view[lay.start + 1 + i]))
    }

    /** The blocks from k on can be read beside their log slots: a second buffer can be recycled, or they
        are all pinned in the cache. */
    ghost predicate Installable(k: nat, x: Buf, y: Buf)
      requires n <= block.Length
      reads this`n, block, cache.bufs`dirty, cache.bufs`blockno, y`refcnt, y`dirty
    {
      && y in cache.bufs
      && ((x != y && cache.Recyclable(y))
          || (DistinctInv() && forall i :: k <= i < n ==> block[i] in cache.Pinned()))
    }

    /** install_trans: the log slots go to the blocks' home locations. */
    method InstallTrans(ghost x: Buf, ghost y: Buf)
      requires Ready(x) && HeaderInv() && Installable(0, x, y)
      modifies cache`disk, cache`latest, cache`writes, cache`ring, cache`clock, cache.head, cache.bufs
      ensures Ready(x) && cache.Pinned() == old(cache.Pinned()) - Named(n)
      ensures lay.Fits(old(cache.latest)) && |old(cache.latest)| == |cache.origin|
      ensures var ws := SlotWrites(lay, Blocks(), old(cache.latest));
              && cache.writes == old(cache.writes) + ws
              && cache.latest == After(old(cache.latest), ws, |ws|)
    {
      ghost var was := cache.latest;
      ghost var ws := SlotWrites(lay, Blocks(), was);
      assert old(cache.writes) + ws[..0] == cache.writes;
      for tail := 0 to n
        invariant Ready(x) && Installable(tail, x, y)
        invariant cache.Pinned() == old(cache.Pinned()) - Named(tail)
        invariant cache.writes == old(cache.writes) + ws[..tail] && cache.latest == After(was, ws, tail)
      {
        InstallRound(tail, was, ws, x, y);
        assert block[..tail + 1] == block[..tail] + [block[tail]];
        TakeStep(old(cache.writes), ws, tail);
      }
      assert ws[..n] == ws;
    }

    method InstallRound(tail: nat, ghost was: Disk, ghost ws: seq<Write>, ghost x: Buf, ghost y: Buf)
      requires Ready(x) && HeaderInv() && tail < n && |was| == |cache.origin|
      requires Installable(tail, x, y)
      requires ws == SlotWrites(lay, Blocks(), was) && cache.latest == After(was, ws, tail)
      modifies cache`disk, cache`latest, cache`writes, cache`ring, cache`clock, cache.head, cache.bufs
      ensures Ready(x) && cache.Pinned() == old(cache.Pinned()) - {block[tail]}
      ensures Installable(tail + 1, x, y)
      ensures cache.writes == old(cache.writes) + [ws[tail]] && cache.latest == After(was, ws, tail + 1)
    {
      assert block[tail] == Blocks()[tail];
      assert lay.InLog(lay.start + tail + 1);
      Untouched(was, ws, tail, lay.start + tail + 1);
      cache.CopyHome(lay.start + tail + 1, block[tail], x, y);
    }

    // -------------------------------------------------------------- commit and recovery

    /** The first half of commit: fill the log and write the header, the real commit. */
    method CommitHead(ghost x: Buf)
      requires Ready(x) && HeaderInv() && PinInv() && cache.latest[lay.start] == cache.disk[lay.start]
      modifies cache`disk, cache`latest, cache`writes, cache`ring, cache`clock, cache.head, cache.bufs
      ensures Ready(x) && cache.Pinned() == old(cache.Pinned())
      ensures |cache.origin| == |old(cache.latest)| == |old(cache.disk)|
      ensures cache.writes == old(cache.writes) + CommitPart(lay, old(cache.disk), Blocks(), old(cache.latest))
      ensures SlotWrites(lay, Blocks(), cache.latest) == InstallPart(Blocks(), old(cache.latest))
      ensures cache.latest[lay.start] == EncodeHeader(old(cache.disk)[lay.start], Blocks())
      ensures SameHome(lay, cache.latest, old(cache.latest))
    {
      ghost var blocks, after := Blocks(), cache.latest;
      WriteLog(x);
      AfterHead(lay, blocks, after, EncodeHeader(after[lay.start], blocks));
      WriteHead(x);
    }

    /** The current contents once the log is filled and header h is in place. */
    static lemma AfterHead(lay: Layout, blocks: seq<nat>, after: Disk, h: Block)
      requires lay.Fits(after) && GoodBlocks(lay, |after|, blocks)
      ensures var l1 := After(after, LogPart(lay, blocks, after), |blocks|);
              && l1[lay.start] == after[lay.start]
              && SlotWrites(lay, blocks, l1[lay.start := h]) == InstallPart(blocks, after)
              && SameHome(lay, l1[lay.start := h], after)
    {
      LogSlotsFilled(lay, after, blocks, after);
      LogPartStays(lay, blocks, after);
    }

    /** The log slots are the only blocks that filling the log changes. */
    static lemma LogPartStays(lay: Layout, blocks: seq<nat>, after: Disk)
      requires lay.Fits(after) && GoodBlocks(lay, |after|, blocks)
      ensures var d := After(after, LogPart(lay, blocks, after), |blocks|);
              d[lay.start] == after[lay.start] && SameHome(lay, d, after)
    {
      var ws := LogPart(lay, blocks, after);
      forall b | 0 <= b < |after| && (!lay.InLog(b) || b == lay.start)
        ensures After(after, ws, |blocks|)[b] == after[b]
      {
        Untouched(after, ws, |blocks|, b);
      }
    }

    /** The second half of commit and all of recovery but reading the header: install the log and erase it. */
    method InstallAndErase(ghost x: Buf, ghost y: Buf)
      requires Ready(x) && HeaderInv() && Installable(0, x, y)
      modifies this`n, cache`disk, cache`latest, cache`writes, cache`ring, cache`clock, cache.head, cache.bufs
      ensures Ready(x) && HeaderInv() && n == 0
      ensures cache.Pinned() == old(cache.Pinned()) - old(Named(n))
      ensures lay.Fits(old(cache.latest)) && |old(cache.latest)| == |cache.origin|
      ensures cache.writes == old(cache.writes) + SlotWrites(lay, old(Blocks()), old(cache.latest))
                              + [Write(lay.start, PutWord(old(cache.latest)[lay.start], 0, 0))]
    {
      SlotWritesStay(lay, Blocks(), cache.latest);
      InstallTrans(x, y);
      n := 0;
      WriteHead(x);
    }

    static lemma SlotWritesStay(lay: Layout, blocks: seq<nat>, view: Disk)
      requires lay.Fits(view) && GoodBlocks(lay, |view|, blocks)
      ensures After(view, SlotWrites(lay, blocks, view), |blocks|)[lay.start] == view[lay.start]
    {
      Untouched(view, SlotWrites(lay, blocks, view), |blocks|, lay.start);
    }

    static lemma Assemble(pre: seq<Write>, a: seq<Write>, b: seq<Write>, c: seq<Write>)
      ensures pre + a + b + c == pre + (a + (b + c))
    {
    }

    method CommitAll(ghost x: Buf)
      requires Ready(x) && HeaderInv() && DistinctInv() && PinInv() && cache.latest[lay.start] == cache.disk[lay.start]
      modifies this`n, cache`disk, cache`latest, cache`writes, cache`ring, cache`clock, cache.head, cache.bufs
      ensures Ready(x) && HeaderInv() && n == 0 && cache.Pinned() == {}
      ensures |cache.origin| == |old(cache.latest)| == |old(cache.disk)|
      ensures cache.writes == old(cache.writes) + CommitWrites(lay, old(cache.disk), old(Blocks()), old(cache.latest))
    {
      ghost var blocks, d, after := Blocks(), cache.disk, cache.latest;
      CommitHead(x);
      forall i | 0 <= i < n ensures block[i] in cache.Pinned() { assert block[..n][i] in Named(n); }
      InstallAndErase(x, x);
      Assemble(old(cache.writes), CommitPart(lay, d, blocks, after), InstallPart(blocks, after),
               [Write(lay.start, PutWord(EncodeHeader(d[lay.start], blocks), 0, 0))]);
    }

    /** commit: a non-empty transaction causes exactly the block writes CommitWrites, so a crash between any
        two of them is covered by CrashAtomicity; an empty one causes none. No operation is outstanding, and
        `committing` keeps it so. */
    method Commit(ghost x: Buf)
      requires committing && outstanding == 0
      requires Valid() && cache.NoLocks() && x in cache.bufs && cache.Recyclable(x)
      modifies this`n, cache`disk, cache`latest, cache`writes, cache`ring, cache`clock, cache.head, cache.bufs
      ensures Ready(x) && HeaderInv() && n == 0 && cache.Pinned() == {}
      ensures Transaction(lay, old(cache.disk), old(Blocks()), old(cache.latest))
      ensures cache.writes == old(cache.writes) +
                if old(n) == 0 then [] else CommitWrites(lay, old(cache.disk), old(Blocks()), old(cache.latest))
    {
      IsTransaction();
      if n > 0 {
        CommitAll(x);
      }
    }

    /** What the cache holds and the header names is a transaction that commit can make durable. */
    lemma IsTransaction()
      requires Valid() && cache.NoLocks()
      ensures Transaction(lay, cache.disk, Blocks(), cache.latest)
      ensures cache.latest[lay.start] == cache.disk[lay.start]
      ensures forall b :: lay.InLog(b) ==> b !in cache.Pinned()
    {
      cache.OnlyPinnedDiffer();
    }

    /** After a complete commit the log is erased and the disk holds what the cache held. */
    static lemma Committed(lay: Layout, origin: Disk, ws: seq<Write>, d: Disk, blocks: seq<nat>, after: Disk)
      requires Transaction(lay, d, blocks, after)
      requires InRange(|origin|, ws) && d == After(origin, ws, |ws|)
      ensures var all := ws + CommitWrites(lay, d, blocks, after);
              && InRange(|origin|, all)
              && var d' := After(origin, all, |all|);
              && WellFormed(lay, d') && HeaderCount(d'[lay.start]) == 0 && SameHome(lay, d', after)
    {
      AfterBoth(origin, ws, CommitWrites(lay, d, blocks, after));
      CompleteCommit(lay, d, blocks, after);
    }

    /** end_op: the last operation to end commits everything logged, and then the home blocks on disk are the
        cache's. Any earlier one only gives back its reservation. Panics exactly if a commit is running. */
    method EndOp(ghost x: Buf) returns (panicked: bool)
      requires Valid() && outstanding >= 1
      requires outstanding == 1 ==> cache.NoLocks() && x in cache.bufs && cache.Recyclable(x)
      modifies this`n, this`outstanding, this`committing
      modifies cache`disk, cache`latest, cache`writes, cache`ring, cache`clock, cache.head, cache.bufs
      ensures panicked <==> old(committing)
      ensures outstanding == old(outstanding) - 1 && committing == old(committing)
      ensures panicked || outstanding > 0 ==>
                n == old(n) && cache.disk == old(cache.disk) && cache.latest == old(cache.latest)
      ensures Valid()
      ensures !panicked && outstanding == 0 ==> n == 0 && cache.Pinned() == {} && cache.NoLocks()
      ensures !panicked && outstanding == 0 ==> SameHome(lay, cache.disk, old(cache.latest))
    {
      outstanding := outstanding - 1;
      if committing {
        return true;
      }
      if outstanding == 0 {
        committing := true;
        LastOut(x);
        committing := false;
      }
      return false;
    }

    method LastOut(ghost x: Buf)
      requires committing && outstanding == 0
      requires Valid() && cache.NoLocks() && x in cache.bufs && cache.Recyclable(x)
      modifies this`n, cache`disk, cache`latest, cache`writes, cache`ring, cache`clock, cache.head, cache.bufs
      ensures Valid() && n == 0 && cache.Pinned() == {} && cache.NoLocks()
      ensures SameHome(lay, cache.disk, old(cache.latest))
    {
      Commit(x);
      if old(n) == 0 {
        assert old(cache.writes) + [] == old(cache.writes);
      } else {
        Committed(lay, cache.origin, old(cache.writes), old(cache.disk), old(Blocks()), old(cache.latest));
      }
    }

    // -------------------------------------------------------------- recovery

    /** read_head: the header on disk becomes the in-memory header. */
    method ReadHead(ghost x: Buf, ghost y: Buf)
      requires Ready(x) && y in cache.bufs && block.Length == LOGSIZE && lay.Fits(cache.origin)
      requires cache.latest[lay.start] == cache.disk[lay.start] && HeaderCount(cache.disk[lay.start]) <= LOGSIZE
      modifies this`n, block, cache`ring, cache`clock, cache.head, cache.bufs
      ensures Ready(x) && (old(cache.Recyclable(y)) ==> cache.Recyclable(y)) && cache.Pinned() == old(cache.Pinned())
      ensures n == HeaderCount(cache.disk[lay.start]) && Blocks() == HeaderBlocks(cache.disk[lay.start])
    {
      var h := cache.Peek(lay.start, x, y);
      CopyHeader(h);
    }

    method CopyHeader(h: Block)
      requires block.Length == LOGSIZE && HeaderCount(h) <= LOGSIZE
      modifies this`n, block
      ensures n == HeaderCount(h) && Blocks() == HeaderBlocks(h)
    {
      n := GetWord(h, 0);
      for i := 0 to n
        invariant n == HeaderCount(h) && forall j :: 0 <= j < i ==> block[j] == HeaderBlocks(h)[j]
      {
        block[i] := GetWord(h, 1 + i);
      }
    }

    /** What a recovery leaves on disk, after the writes ws that made it d. */
    static lemma Recovered(lay: Layout, origin: Disk, ws: seq<Write>, d: Disk)
      requires WellFormed(lay, d) && InRange(|origin|, ws) && d == After(origin, ws, |ws|)
      ensures var all := ws + RecoverWrites(lay, d);
              && InRange(|origin|, all)
              && var d' := After(origin, all, |all|);
              && WellFormed(lay, d') && HeaderCount(d'[lay.start]) == 0 && SameHome(lay, d', Logical(lay, d))
    {
      AfterBoth(origin, ws, RecoverWrites(lay, d));
      CompleteRecovery(lay, d);
    }

    /** recover_from_log: on any disk with a well-formed log it causes exactly the block writes RecoverWrites. The home
        blocks are then those the disk meant, and the log is in order for its first operation. */
    method RecoverFromLog(ghost x: Buf, ghost y: Buf)
      requires cache.Valid() && cache.NoLocks() && cache.Pinned() == {} && block.Length == LOGSIZE
      requires WellFormed(lay, cache.disk)
      requires x in cache.bufs && y in cache.bufs && x != y && cache.Recyclable(x) && cache.Recyclable(y)
      modifies this`n, block, cache`disk, cache`latest, cache`writes, cache`ring, cache`clock, cache.head, cache.bufs
      ensures Ready(x) && Valid() && n == 0
      ensures cache.writes == old(cache.writes) + RecoverWrites(lay, old(cache.disk))
      ensures SameHome(lay, cache.disk, Logical(lay, old(cache.disk)))
    {
      cache.OnlyPinnedDiffer();
      assert cache.latest == cache.disk;
      ReadHead(x, y);
      InstallAndErase(x, y);
      Recovered(lay, cache.origin, old(cache.writes), old(cache.disk));
    }

    // -------------------------------------------------------------- when the cache is too small

    static lemma {:induction false} ElemsCard(s: seq<nat>)
      requires forall i, j :: 0 <= i < j < |s| ==> s[i] != s[j]
      ensures |Elems(s)| == |s|
    {
      if s != [] {
        var t := s[..|s| - 1];
        ElemsCard(t);
        assert Elems(s) == Elems(t) + {s[|s| - 1]};
      }
    }

    /** With no buffer in use, commit finds a buffer for its log blocks exactly when the transaction has fewer
        than NBUF blocks. Since LOGSIZE == NBUF, a log that lets a transaction grow to LOGSIZE blocks lets
        bget panic in write_log. */
    lemma CommitHasBuffer()
      requires Valid() && forall b :: b in cache.bufs ==> b.refcnt == 0
      ensures n <= NBUF
      ensures (exists x :: x in cache.bufs && cache.Recyclable(x)) <==> n < NBUF
      ensures n == NBUF ==> forall b, i :: b in cache.bufs && lay.InLog(i) ==> !cache.Holds(b, ROOTDEV, i)
    {
      ElemsCard(Blocks());
      cache.CleanBufferLeft();
      if n == NBUF {
        forall b, i | b in cache.bufs && lay.InLog(i) ensures !cache.Holds(b, ROOTDEV, i) {
          assert b.dirty;
          assert b.blockno in cache.Pinned();
        }
      }
    }

    /** No buffer is in use. */
    ghost predicate Quiet()
      reads cache.bufs`refcnt, cache.bufs`locked
    {
      forall b :: b in cache.bufs ==> b.refcnt == 0 && !b.locked
    }

    /** bread, log_write and brelse of a block that is not in the log yet. */
    method LogOne(b: nat)
      requires Valid() && Quiet() && outstanding >= 1 && n < NBUF && n < lay.size - 1
      requires b < |cache.origin| && !lay.InLog(b) && b !in Blocks()
      modifies this`n, block, cache`ring, cache`clock, cache.head, cache.bufs
      ensures Valid() && Quiet() && Blocks() == old(Blocks()) + [b]
    {
      CommitHasBuffer();
      ghost var x :| x in cache.bufs && cache.Recyclable(x);
      var buf := cache.ReadAlone(b, x);
      LogAndRelease(buf);
    }

    method LogAndRelease(buf: Buf)
      requires Valid() && outstanding >= 1 && n < LOGSIZE && n < lay.size - 1
      requires buf in cache.bufs && cache.InUse(buf) && !lay.InLog(buf.blockno) && buf.blockno !in Blocks()
      modifies this`n, block, buf`dirty, cache`ring, cache`clock, cache.head, cache.bufs`next, cache.bufs`prev
      modifies buf`locked, buf`refcnt, buf`released
      ensures Valid() && Quiet() && Blocks() == old(Blocks()) + [buf.blockno]
    {
      var panicked := LogWrite(buf);
      cache.BRelse(buf);
    }
  }

  /** Such a log comes about: one with room for LOGSIZE blocks, and operations that log that many. Then no buffer is
      left for commit. */
  method FullLog() returns (log: Log)
    ensures log.Valid() && log.Quiet() && log.n == NBUF
    ensures forall b :: b in log.cache.bufs ==> !log.cache.Recyclable(b)
  {
    var disk: Disk := seq(80, i => ZeroBlock());
    ZeroBlockWord(0);
    var cache := new BCache(disk);
    log := new Log(cache, Layout(2, LOGSIZE + 1));
    BeginThree(log);
    FillLog(log);
  }

  /** As many operations as begin_op admits to an empty log. */
  method BeginThree(log: Log)
    requires log.n == 0 && log.outstanding == 0 && !log.committing && log.block.Length == LOGSIZE
    modifies log`outstanding
    ensures log.outstanding * MAXOPBLOCKS == LOGSIZE
  {
    ghost var d := log.cache.disk;
    ghost var s := Protocol.State(d, d, [], Protocol.AllIdle(3), Protocol.Running, [], [], 0, 0, true, true);
    for p := 0 to 3
      invariant log.outstanding == p && log.Mirrors(s) && s.phase.Running? && s.lh == [] && |s.procs| == 3
      invariant forall q :: p <= q < 3 ==> s.procs[q].Idle?
    {
      ghost var procs := s.procs;
      var admitted;
      admitted, s := log.BeginOp(s, p);
      Protocol.CountUpdate(procs, p, s.procs[p]);
    }
  }

  method FillLog(log: Log)
    requires log.Valid() && log.Quiet() && log.n == 0 && log.outstanding >= 1 && log.lay == Layout(2, LOGSIZE + 1)
    requires |log.cache.origin| == 80
    modifies log`n, log.block, log.cache`ring, log.cache`clock, log.cache.head, log.cache.bufs
    ensures log.Valid() && log.Quiet() && log.n == NBUF
    ensures forall b :: b in log.cache.bufs ==> !log.cache.Recyclable(b)
  {
    for i := 0 to NBUF
      invariant log.Valid() && log.Quiet() && log.n == i
      invariant forall j :: 0 <= j < i ==> log.Blocks()[j] == 40 + j
    {
      log.LogOne(40 + i);
    }
    log.CommitHasBuffer();
  }
}
