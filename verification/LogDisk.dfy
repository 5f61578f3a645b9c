/** The redo log as the disk sees it: which blocks commit and recovery write, in which order,
    and what a recovery makes of the disk left behind by a crash between any two of these writes.
    A disk is a sequence of blocks and a block write is atomic (a block is one sector). */
module LogDisk {
  import opened Bytes

  const MAXOPBLOCKS: nat := 10
  const LOGSIZE: nat := 30          // MAXOPBLOCKS * 3

  datatype Write = Write(bno: nat, data: Block)

  /** The log occupies blocks start .. start+size: one header block, then size-1 data slots. */
  datatype Layout = Layout(start: nat, size: nat) {
    predicate InLog(b: nat) { start <= b < start + size }

    predicate Fits(d: Disk) { 1 <= size && start + size <= |d| <= 0x1_0000_0000 }
  }

  // ---------------------------------------------------------------- sequences of writes

  predicate InRange(size: nat, ws: seq<Write>) {
    forall i :: 0 <= i < |ws| ==> ws[i].bno < size
  }

  /** The disk after the first k of the writes ws. */
  function After(d: Disk, ws: seq<Write>, k: nat): (r: Disk)
    requires InRange(|d|, ws) && k <= |ws|
    ensures |r| == |d|
  {
    if k == 0 then d else After(d, ws, k - 1)[ws[k - 1].bno := ws[k - 1].data]
  }

  ghost predicate Touches(ws: seq<Write>, k: nat, b: nat)
    requires k <= |ws|
  {
    exists i :: 0 <= i < k && ws[i].bno == b
  }

  lemma {:induction false} Untouched(d: Disk, ws: seq<Write>, k: nat, b: nat)
    requires InRange(|d|, ws) && k <= |ws| && b < |d| && !Touches(ws, k, b)
    ensures After(d, ws, k)[b] == d[b]
  {
    if k > 0 {
      Untouched(d, ws, k - 1, b);
    }
  }

  /** What a block that ws writes ends up with does not depend on what was there before. */
  lemma {:induction false} Independent(d1: Disk, d2: Disk, ws: seq<Write>, k: nat, b: nat)
    requires |d1| == |d2| && InRange(|d1|, ws) && k <= |ws| && b < |d1|
    requires Touches(ws, k, b) || d1[b] == d2[b]
    ensures After(d1, ws, k)[b] == After(d2, ws, k)[b]
  {
    if k > 0 && ws[k - 1].bno != b {
      Independent(d1, d2, ws, k - 1, b);
    }
  }

  /** A block not written again later ends up holding what write i put there. */
  lemma {:induction false} LastWriteWins(d: Disk, ws: seq<Write>, k: nat, i: nat)
    requires InRange(|d|, ws) && i < k <= |ws|
    requires forall j :: i < j < k ==> ws[j].bno != ws[i].bno
    ensures After(d, ws, k)[ws[i].bno] == ws[i].data
  {
    if i < k - 1 {
      LastWriteWins(d, ws, k - 1, i);
    }
  }

  /** Writing ws and then vs is writing vs on what ws left. */
  lemma {:induction false} AfterConcat(d: Disk, ws: seq<Write>, vs: seq<Write>, all: seq<Write>, k: nat)
    requires InRange(|d|, ws) && InRange(|d|, vs) && all == ws + vs && |ws| <= k <= |all|
    ensures InRange(|d|, all)
    ensures After(d, all, k) == After(After(d, ws, |ws|), vs, k - |ws|)
  {
    if k == |ws| {
      AfterPrefix(d, ws, all, |ws|);
    } else {
      AfterConcat(d, ws, vs, all, k - 1);
    }
  }

  lemma {:induction false} AfterTail(d: Disk, ws: seq<Write>, d1: Disk, vs: seq<Write>, all: seq<Write>, j: nat, k: nat)
    requires InRange(|d|, ws) && InRange(|d|, vs) && all == ws + vs && j <= |vs| && k == |ws| + j
    requires d1 == After(d, ws, |ws|)
    ensures InRange(|d|, all) && After(d, all, k) == After(d1, vs, j)
  {
    AfterConcat(d, ws, vs, all, k);
  }

  lemma AfterSnoc(d: Disk, ws: seq<Write>, w: Write)
    requires InRange(|d|, ws) && w.bno < |d|
    ensures InRange(|d|, ws + [w])
    ensures After(d, ws + [w], |ws + [w]|) == After(d, ws, |ws|)[w.bno := w.data]
  {
    AfterPrefix(d, ws, ws + [w], |ws|);
  }

  lemma AfterBoth(d: Disk, ws: seq<Write>, vs: seq<Write>)
    requires InRange(|d|, ws) && InRange(|d|, vs)
    ensures InRange(|d|, ws + vs)
    ensures After(d, ws + vs, |ws + vs|) == After(After(d, ws, |ws|), vs, |vs|)
  {
    AfterConcat(d, ws, vs, ws + vs, |ws + vs|);
  }

  lemma {:induction false} AfterPrefix(d: Disk, ws: seq<Write>, vs: seq<Write>, k: nat)
    requires InRange(|d|, ws) && InRange(|d|, vs) && k <= |ws| && k <= |vs|
    requires forall i :: 0 <= i < k ==> ws[i] == vs[i]
    ensures After(d, ws, k) == After(d, vs, k)
  {
    if k > 0 {
      AfterPrefix(d, ws, vs, k - 1);
    }
  }

  // ---------------------------------------------------------------- the header block

  function HeaderCount(h: Block): Word { GetWord(h, 0) }

  function HeaderBlocks(h: Block): (bs: seq<nat>)
    requires HeaderCount(h) <= LOGSIZE
  {
    seq(HeaderCount(h), i requires 0 <= i < HeaderCount(h) => GetWord(h, 1 + i))
  }

  /** hb->block[i] = blocks[i] for the first k entries; the others keep what they held. */
  function PutEntries(h: Block, blocks: seq<nat>, k: nat): Block
    requires k <= |blocks| <= LOGSIZE
    requires forall i :: 0 <= i < |blocks| ==> blocks[i] < 0x1_0000_0000
  {
    if k == 0 then h else PutWord(PutEntries(h, blocks, k - 1), k, blocks[k - 1])
  }

  /** The block write_head puts on disk, given the header block already there. */
  function EncodeHeader(h: Block, blocks: seq<nat>): Block
    requires |blocks| <= LOGSIZE
    requires forall i :: 0 <= i < |blocks| ==> blocks[i] < 0x1_0000_0000
  {
    PutEntries(PutWord(h, 0, |blocks|), blocks, |blocks|)
  }

  lemma {:induction false} PutEntriesWord(h: Block, blocks: seq<nat>, k: nat, j: nat)
    requires k <= |blocks| <= LOGSIZE && j < WORDS
    requires forall i :: 0 <= i < |blocks| ==> blocks[i] < 0x1_0000_0000
    ensures GetWord(PutEntries(h, blocks, k), j) == if 1 <= j <= k then blocks[j - 1] else GetWord(h, j)
  {
    if k > 0 {
      PutEntriesWord(h, blocks, k - 1, j);
      PutGetWord(PutEntries(h, blocks, k - 1), k, blocks[k - 1], j);
    }
  }

  /** Reading a header back gives the list of blocks written, whatever the block held before. */
  lemma HeaderRoundTrip(h: Block, blocks: seq<nat>)
    requires |blocks| <= LOGSIZE
    requires forall i :: 0 <= i < |blocks| ==> blocks[i] < 0x1_0000_0000
    ensures HeaderCount(EncodeHeader(h, blocks)) == |blocks|
    ensures HeaderBlocks(EncodeHeader(h, blocks)) == blocks
  {
    var h0 := PutWord(h, 0, |blocks|);
    PutEntriesWord(h0, blocks, |blocks|, 0);
    PutGetWord(h, 0, |blocks|, 0);
    forall i | 0 <= i < |blocks|
      ensures HeaderBlocks(EncodeHeader(h, blocks))[i] == blocks[i]
    {
      PutEntriesWord(h0, blocks, |blocks|, 1 + i);
    }
  }

  // ---------------------------------------------------------------- recovery

  /** Every block named by a header list is a home block and fits in the log's data slots. */
  predicate GoodBlocks(lay: Layout, size: nat, blocks: seq<nat>) {
    && |blocks| <= LOGSIZE && |blocks| <= lay.size - 1
    && forall i :: 0 <= i < |blocks| ==> blocks[i] < size && !lay.InLog(blocks[i])
  }

  /** Blocks that write_log and write_head can handle without leaving the disk or the header, whether or not the log
      has a slot for each. */
  predicate Loggable(lay: Layout, size: nat, blocks: seq<nat>) {
    && |blocks| <= LOGSIZE && lay.start + 1 + |blocks| <= size
    && forall i :: 0 <= i < |blocks| ==> blocks[i] < size && !(lay.start <= blocks[i] <= lay.start + |blocks|)
  }

  /** A disk whose log header can be trusted. */
  predicate WellFormed(lay: Layout, d: Disk) {
    && lay.Fits(d)
    && HeaderCount(d[lay.start]) <= LOGSIZE
    && GoodBlocks(lay, |d|, HeaderBlocks(d[lay.start]))
  }

  ghost predicate SameHome(lay: Layout, d1: Disk, d2: Disk) {
    && |d1| == |d2|
    && forall b :: 0 <= b < |d1| && !lay.InLog(b) ==> d1[b] == d2[b]
  }

  /** The writes of install_trans: the i-th logged block goes to the i-th home location. */
  function Installs(lay: Layout, d: Disk): (ws: seq<Write>)
    requires WellFormed(lay, d)
    ensures InRange(|d|, ws)
  {
    var bs := HeaderBlocks(d[lay.start]);
    seq(|bs|, i requires 0 <= i < |bs| => Write(bs[i], d[lay.start + 1 + i]))
  }

  /** What the disk means: its home blocks once the committed transaction, if any, is installed. */
  function Logical(lay: Layout, d: Disk): (r: Disk)
    requires WellFormed(lay, d)
    ensures |r| == |d|
  {
    After(d, Installs(lay, d), |Installs(lay, d)|)
  }

  /** All block writes of recover_from_log on disk d, in order. */
  function RecoverWrites(lay: Layout, d: Disk): (ws: seq<Write>)
    requires WellFormed(lay, d)
    ensures InRange(|d|, ws)
  {
    Installs(lay, d) + [Write(lay.start, PutWord(d[lay.start], 0, 0))]
  }

  lemma InstallsStayHome(lay: Layout, d: Disk, k: nat)
    requires WellFormed(lay, d) && k <= |Installs(lay, d)|
    ensures forall b: nat :: lay.InLog(b) ==> After(d, Installs(lay, d), k)[b] == d[b]
  {
    forall b: nat | lay.InLog(b) ensures After(d, Installs(lay, d), k)[b] == d[b] {
      Untouched(d, Installs(lay, d), k, b);
    }
  }

  /** An interrupted installation leaves the log as it was. */
  lemma SameInstalls(lay: Layout, d: Disk, k: nat)
    requires WellFormed(lay, d) && k <= |Installs(lay, d)|
    ensures var d' := After(d, Installs(lay, d), k);
            WellFormed(lay, d') && Installs(lay, d') == Installs(lay, d)
  {
    var ws := Installs(lay, d);
    var d' := After(d, ws, k);
    InstallsStayHome(lay, d, k);
    assert d'[lay.start] == d[lay.start];
    forall i | 0 <= i < |ws| ensures Installs(lay, d')[i] == ws[i] {
      assert lay.InLog(lay.start + 1 + i);
    }
  }

  /** Installing over a part of the installation gives what installing once gives. */
  lemma InstallTwice(d: Disk, ws: seq<Write>, k: nat, b: nat)
    requires InRange(|d|, ws) && k <= |ws| && b < |d|
    ensures After(After(d, ws, k), ws, |ws|)[b] == After(d, ws, |ws|)[b]
  {
    if !Touches(ws, |ws|, b) {
      Untouched(d, ws, k, b);
    }
    Independent(After(d, ws, k), d, ws, |ws|, b);
  }

  /** Stopping the installation anywhere and looking again at the disk shows the same log
      and the same meaning. */
  lemma InterruptedInstall(lay: Layout, d: Disk, k: nat)
    requires WellFormed(lay, d) && k <= |Installs(lay, d)|
    ensures var d' := After(d, Installs(lay, d), k);
            && WellFormed(lay, d')
            && SameHome(lay, Logical(lay, d'), Logical(lay, d))
  {
    var ws := Installs(lay, d);
    SameInstalls(lay, d, k);
    forall b | 0 <= b < |d| ensures After(After(d, ws, k), ws, |ws|)[b] == After(d, ws, |ws|)[b] {
      InstallTwice(d, ws, k, b);
    }
  }

  /** With an empty header in place the disk means what its home blocks say. */
  lemma EmptyLog(lay: Layout, d: Disk, h: Block)
    requires lay.Fits(d) && HeaderCount(h) == 0
    ensures var d' := d[lay.start := h];
            && WellFormed(lay, d') && Logical(lay, d') == d' && SameHome(lay, d', d)
  {
    var d' := d[lay.start := h];
    assert Installs(lay, d') == [];
  }

  /** A recovery that runs to its end empties the log and leaves the home blocks as they mean. */
  lemma CompleteRecovery(lay: Layout, d: Disk)
    requires WellFormed(lay, d)
    ensures var d' := After(d, RecoverWrites(lay, d), |RecoverWrites(lay, d)|);
            && WellFormed(lay, d') && HeaderCount(d'[lay.start]) == 0
            && Logical(lay, d') == d'
            && SameHome(lay, d', Logical(lay, d))
  {
    var ws := Installs(lay, d);
    AfterPrefix(d, RecoverWrites(lay, d), ws, |ws|);
    PutGetWord(d[lay.start], 0, 0, 0);
    EmptyLog(lay, Logical(lay, d), PutWord(d[lay.start], 0, 0));
  }

  /** A crash after any k writes of recovery loses nothing. */
  lemma {:induction false} InterruptedRecovery(lay: Layout, d: Disk, k: nat)
    requires WellFormed(lay, d) && k <= |RecoverWrites(lay, d)|
    ensures var d' := After(d, RecoverWrites(lay, d), k);
            && WellFormed(lay, d')
            && SameHome(lay, Logical(lay, d'), Logical(lay, d))
  {
    if k < |RecoverWrites(lay, d)| {
      assert After(d, RecoverWrites(lay, d), k) == After(d, Installs(lay, d), k) by {
        AfterPrefix(d, RecoverWrites(lay, d), Installs(lay, d), k);
      }
      InterruptedInstall(lay, d, k);
    } else {
      CompleteRecovery(lay, d);
    }
  }

  /** The disk after recoveries interrupted after crashes[0], crashes[1], ... of their writes. */
  function InterruptedRecoveries(lay: Layout, d: Disk, crashes: seq<nat>): (r: Disk)
    requires WellFormed(lay, d)
    ensures WellFormed(lay, r) && |r| == |d|
    ensures SameHome(lay, Logical(lay, r), Logical(lay, d))
    decreases |crashes|
  {
    if crashes == [] then d else
    var all := RecoverWrites(lay, d);
    var k := if crashes[0] <= |all| then crashes[0] else |all|;
    InterruptedRecovery(lay, d, k);
    InterruptedRecoveries(lay, After(d, all, k), crashes[1..])
  }

  // ---------------------------------------------------------------- commit

  /** write_log: copy the modified blocks from the cache to the log. */
  function LogPart(lay: Layout, blocks: seq<nat>, after: Disk): seq<Write>
    requires forall i :: 0 <= i < |blocks| ==> blocks[i] < |after|
  {
    seq(|blocks|, i requires 0 <= i < |blocks| => Write(lay.start + 1 + i, after[blocks[i]]))
  }

  /** install_trans on the freshly written log. */
  function InstallPart(blocks: seq<nat>, after: Disk): seq<Write>
    requires forall i :: 0 <= i < |blocks| ==> blocks[i] < |after|
  {
    seq(|blocks|, i requires 0 <= i < |blocks| => Write(blocks[i], after[blocks[i]]))
  }

  /** The writes up to and including the header, the true point at which a transaction commits. */
  function CommitPart(lay: Layout, d: Disk, blocks: seq<nat>, after: Disk): (ws: seq<Write>)
    requires lay.Fits(d) && |after| == |d| && Loggable(lay, |d|, blocks)
    ensures InRange(|d|, ws) && |ws| == |blocks| + 1
  {
    LogPart(lay, blocks, after) + [Write(lay.start, EncodeHeader(d[lay.start], blocks))]
  }

  /** The writes after the header: the home blocks and the erased header. */
  function FinishPart(lay: Layout, d: Disk, blocks: seq<nat>, after: Disk): (ws: seq<Write>)
    requires lay.Fits(d) && |after| == |d| && Loggable(lay, |d|, blocks)
    ensures InRange(|d|, ws) && |ws| == |blocks| + 1
  {
    InstallPart(blocks, after) + [Write(lay.start, PutWord(EncodeHeader(d[lay.start], blocks), 0, 0))]
  }

  /** All block writes of commit for a non-empty transaction, in order.
      `after` is the cache's view of the disk. */
  function CommitWrites(lay: Layout, d: Disk, blocks: seq<nat>, after: Disk): (ws: seq<Write>)
    requires lay.Fits(d) && |after| == |d| && Loggable(lay, |d|, blocks)
    ensures InRange(|d|, ws) && |ws| == 2 * |blocks| + 2
  {
    CommitPart(lay, d, blocks, after) + FinishPart(lay, d, blocks, after)
  }

  /** The transaction that commit makes durable: the disk's log is empty, the list holds home
      blocks without repetition, and off that list cache and disk agree. */
  ghost predicate Transaction(lay: Layout, d: Disk, blocks: seq<nat>, after: Disk) {
    && WellFormed(lay, d) && HeaderCount(d[lay.start]) == 0
    && |after| == |d| && GoodBlocks(lay, |d|, blocks)
    && (forall i, j :: 0 <= i < j < |blocks| ==> blocks[i] != blocks[j])
    && (forall b :: 0 <= b < |d| && !lay.InLog(b) && b !in blocks ==> after[b] == d[b])
  }

  /** Before the header is written, only log slots have changed. */
  lemma BeforeHeader(lay: Layout, d: Disk, blocks: seq<nat>, after: Disk, k: nat)
    requires Transaction(lay, d, blocks, after) && k <= |blocks|
    ensures var d' := After(d, CommitPart(lay, d, blocks, after), k);
            && WellFormed(lay, d') && d'[lay.start] == d[lay.start]
            && SameHome(lay, d', d) && Logical(lay, d') == d'
  {
    var ws := CommitPart(lay, d, blocks, after);
    var d' := After(d, ws, k);
    forall b | 0 <= b < |d| && (!lay.InLog(b) || b == lay.start) ensures d'[b] == d[b] {
      Untouched(d, ws, k, b);
    }
    assert d'[lay.start := d[lay.start]] == d';
    EmptyLog(lay, d', d[lay.start]);
  }

  ghost predicate SlotsHold(lay: Layout, d: Disk, blocks: seq<nat>, after: Disk)
    requires lay.Fits(d) && |after| == |d| && Loggable(lay, |d|, blocks)
  {
    forall i {:trigger blocks[i]} :: 0 <= i < |blocks| ==> d[lay.start + 1 + i] == after[blocks[i]]
  }

  lemma LogSlotsFilled(lay: Layout, d: Disk, blocks: seq<nat>, after: Disk)
    requires lay.Fits(d) && |after| == |d| && Loggable(lay, |d|, blocks)
    ensures SlotsHold(lay, After(d, LogPart(lay, blocks, after), |blocks|), blocks, after)
  {
    forall i | 0 <= i < |blocks|
      ensures After(d, LogPart(lay, blocks, after), |blocks|)[lay.start + 1 + i] == after[blocks[i]]
    {
      LogSlotFilled(lay, d, blocks, after, LogPart(lay, blocks, after), |blocks|, i);
    }
  }

  lemma {:induction false} LogSlotFilled(lay: Layout, d: Disk, blocks: seq<nat>, after: Disk, ws: seq<Write>, k: nat,
                                         i: nat)
    requires lay.Fits(d) && |after| == |d| && Loggable(lay, |d|, blocks) && i < k <= |blocks|
    requires ws == LogPart(lay, blocks, after) && InRange(|d|, ws)
    ensures After(d, ws, k)[lay.start + 1 + i] == after[blocks[i]]
  {
    assert ws[k - 1] == Write(lay.start + k, after[blocks[k - 1]]);
    if i < k - 1 {
      LogSlotFilled(lay, d, blocks, after, ws, k - 1, i);
    }
  }

  lemma HeaderOnTop(lay: Layout, d: Disk, h: Block, blocks: seq<nat>, after: Disk, d': Disk)
    requires lay.Fits(d) && |after| == |d| && GoodBlocks(lay, |d|, blocks)
    requires HeaderCount(h) == |blocks| && HeaderBlocks(h) == blocks
    requires SlotsHold(lay, d, blocks, after) && d' == d[lay.start := h]
    ensures WellFormed(lay, d') && SameHome(lay, d', d) && Installs(lay, d') == InstallPart(blocks, after)
  {
  }

  lemma SlotsBeforeHeader(lay: Layout, d: Disk, blocks: seq<nat>, after: Disk)
    requires lay.Fits(d) && |after| == |d| && GoodBlocks(lay, |d|, blocks)
    ensures SlotsHold(lay, After(d, CommitPart(lay, d, blocks, after), |blocks|), blocks, after)
  {
    LogSlotsFilled(lay, d, blocks, after);
    AfterPrefix(d, CommitPart(lay, d, blocks, after), LogPart(lay, blocks, after), |blocks|);
  }

  /** The disk right after the header write: log slots filled, header naming the blocks. */
  lemma AtHeader(lay: Layout, d: Disk, blocks: seq<nat>, after: Disk)
    requires Transaction(lay, d, blocks, after)
    ensures var d' := After(d, CommitPart(lay, d, blocks, after), |blocks| + 1);
            && WellFormed(lay, d') && SameHome(lay, d', d)
            && d'[lay.start] == EncodeHeader(d[lay.start], blocks)
            && Installs(lay, d') == InstallPart(blocks, after)
  {
    var ws, h := CommitPart(lay, d, blocks, after), EncodeHeader(d[lay.start], blocks);
    var d0, d' := After(d, ws, |blocks|), After(d, ws, |blocks| + 1);
    assert ws[|blocks|] == Write(lay.start, h);
    assert d' == d0[lay.start := h];
    BeforeHeader(lay, d, blocks, after, |blocks|);
    SlotsBeforeHeader(lay, d, blocks, after);
    HeaderRoundTrip(d[lay.start], blocks);
    HeaderOnTop(lay, d0, h, blocks, after, d');
  }

  /** Installing the transaction on the old home blocks gives the new home blocks. */
  lemma {:induction false} InstallGivesAfter(lay: Layout, d: Disk, blocks: seq<nat>, after: Disk, d1: Disk)
    requires Transaction(lay, d, blocks, after) && SameHome(lay, d1, d)
    ensures SameHome(lay, After(d1, InstallPart(blocks, after), |blocks|), after)
  {
    var ws := InstallPart(blocks, after);
    forall b | 0 <= b < |d| && !lay.InLog(b) ensures After(d1, ws, |blocks|)[b] == after[b] {
      InstalledAt(lay, d, blocks, after, d1, ws, b);
    }
  }

  lemma {:induction false} InstalledAt(lay: Layout, d: Disk, blocks: seq<nat>, after: Disk, d1: Disk, ws: seq<Write>,
                                       b: nat)
    requires Transaction(lay, d, blocks, after) && SameHome(lay, d1, d) && ws == InstallPart(blocks, after)
    requires b < |d| && !lay.InLog(b)
    ensures After(d1, ws, |blocks|)[b] == after[b]
  {
    if b in blocks {
      var i :| 0 <= i < |blocks| && blocks[i] == b;
      LastWriteWins(d1, ws, |blocks|, i);
    } else {
      Untouched(d1, ws, |blocks|, b);
    }
  }

  /** From the header write on, the disk means the new contents, and what commit still has to do
      is what recovery would do. */
  lemma HeaderIsCommitPoint(lay: Layout, d: Disk, blocks: seq<nat>, after: Disk, head: seq<Write>, d1: Disk)
    requires Transaction(lay, d, blocks, after) && head == CommitPart(lay, d, blocks, after)
    requires d1 == After(d, head, |head|)
    ensures WellFormed(lay, d1) && SameHome(lay, Logical(lay, d1), after)
    ensures FinishPart(lay, d, blocks, after) == RecoverWrites(lay, d1)
  {
    AtHeader(lay, d, blocks, after);
    InstallGivesAfter(lay, d, blocks, after, d1);
  }

  /** A crash after the header write is a crash in a recovery from the disk of that moment. */
  lemma CrashInFinish(lay: Layout, d1: Disk, tail: seq<Write>, d': Disk, j: nat)
    requires WellFormed(lay, d1) && tail == RecoverWrites(lay, d1) && j <= |tail|
    requires InRange(|d1|, tail) && d' == After(d1, tail, j)
    ensures WellFormed(lay, d') && SameHome(lay, Logical(lay, d'), Logical(lay, d1))
  {
    InterruptedRecovery(lay, d1, j);
  }

  lemma {:induction false} CrashAfterHeader(lay: Layout, d: Disk, blocks: seq<nat>, after: Disk, head: seq<Write>,
                                            d1: Disk, tail: seq<Write>, d': Disk, j: nat)
    requires Transaction(lay, d, blocks, after) && head == CommitPart(lay, d, blocks, after)
    requires d1 == After(d, head, |head|) && tail == FinishPart(lay, d, blocks, after)
    requires j <= |tail| && d' == After(d1, tail, j)
    ensures WellFormed(lay, d') && SameHome(lay, Logical(lay, d'), after)
  {
    HeaderIsCommitPoint(lay, d, blocks, after, head, d1);
    CrashInFinish(lay, d1, tail, d', j);
  }

  /** A crash after any k writes of commit leaves a disk that means the old contents up to the
      header write and the new contents from the header write on. */
  lemma {:induction false} InterruptedCommit(lay: Layout, d: Disk, blocks: seq<nat>, after: Disk, k: nat)
    requires Transaction(lay, d, blocks, after)
    requires k <= |CommitWrites(lay, d, blocks, after)|
    ensures var d' := After(d, CommitWrites(lay, d, blocks, after), k);
            && WellFormed(lay, d')
            && SameHome(lay, Logical(lay, d'), if k <= |blocks| then d else after)
  {
    if k <= |blocks| {
      AfterPrefix(d, CommitWrites(lay, d, blocks, after), CommitPart(lay, d, blocks, after), k);
      BeforeHeader(lay, d, blocks, after, k);
    } else {
      var head, tail := CommitPart(lay, d, blocks, after), FinishPart(lay, d, blocks, after);
      var d1, d' := After(d, head, |head|), After(d, CommitWrites(lay, d, blocks, after), k);
      var j := k - |head|;
      AfterTail(d, head, d1, tail, CommitWrites(lay, d, blocks, after), j, k);
      CrashAfterHeader(lay, d, blocks, after, head, d1, tail, d', j);
    }
  }

  /** A commit that runs to its end installs everything and empties the log. */
  lemma CompleteCommit(lay: Layout, d: Disk, blocks: seq<nat>, after: Disk)
    requires Transaction(lay, d, blocks, after)
    ensures var ws := CommitWrites(lay, d, blocks, after);
            var d' := After(d, ws, |ws|);
            && WellFormed(lay, d') && HeaderCount(d'[lay.start]) == 0
            && SameHome(lay, d', after)
  {
    var head := CommitPart(lay, d, blocks, after);
    var d1 := After(d, head, |head|);
    HeaderIsCommitPoint(lay, d, blocks, after, head, d1);
    AfterBoth(d, head, FinishPart(lay, d, blocks, after));
    CompleteRecovery(lay, d1);
  }

  /** Crash atomicity. Commit crashes after any k block writes; any number of recoveries crash in
      turn, each after any number of its writes; the last recovery completes. The home blocks are
      then exactly the old ones if the header had not reached the disk and exactly the new ones if
      it had, and the log is empty. */
  lemma CrashAtomicity(lay: Layout, d: Disk, blocks: seq<nat>, after: Disk, k: nat, crashes: seq<nat>)
    requires Transaction(lay, d, blocks, after)
    requires k <= |CommitWrites(lay, d, blocks, after)|
    ensures var crashed := After(d, CommitWrites(lay, d, blocks, after), k);
            && WellFormed(lay, crashed)
            && var retried := InterruptedRecoveries(lay, crashed, crashes);
            && var final := After(retried, RecoverWrites(lay, retried), |RecoverWrites(lay, retried)|);
            && SameHome(lay, final, if k <= |blocks| then d else after)
            && HeaderCount(final[lay.start]) == 0
  {
    InterruptedCommit(lay, d, blocks, after, k);
    RecoveriesKeepMeaning(lay, After(d, CommitWrites(lay, d, blocks, after), k), crashes);
  }

  /** However often recovery is interrupted, its last complete run yields what the disk meant. */
  lemma RecoveriesKeepMeaning(lay: Layout, d: Disk, crashes: seq<nat>)
    requires WellFormed(lay, d)
    ensures var retried := InterruptedRecoveries(lay, d, crashes);
            && var final := After(retried, RecoverWrites(lay, retried), |RecoverWrites(lay, retried)|);
            && SameHome(lay, final, Logical(lay, d))
            && HeaderCount(final[lay.start]) == 0
  {
    CompleteRecovery(lay, InterruptedRecoveries(lay, d, crashes));
  }
}
