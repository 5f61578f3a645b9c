/** The log under concurrent system calls, as a transition system. Processes begin and end
    operations and log blocks in any interleaving; the last operation to end commits; the machine
    may crash between any two block writes, also during recovery. What is proved holds in every
    state of every run. */
module LogProtocol {
  import opened Bytes
  import opened LogDisk

  /** A process outside any operation, asleep in begin_op, or inside operation `op`, which has added `used` new blocks
      to the log. `tested`: it is in log_write, past the test for a full log and not yet at the acquire of log.lock. */
  datatype Proc = Idle | Asleep | InOp(op: nat, used: nat, tested: bool)

  /** Committing(base, k) and Recovering(base, k): k block writes done since the disk was `base`. */
  datatype Phase = Running | Panicked | Committing(base: Disk, k: nat) | Recovering(base: Disk, k: nat)

  datatype State = State(
    disk: Disk,             // what survives a crash
    cache: Disk,            // every block as bread would return it
    lh: seq<nat>,           // log.lh.block[0..log.lh.n]
    procs: seq<Proc>,
    phase: Phase,
    writes: seq<Write>,     // every log_write since the disk was made, minus those lost in crashes
    ops: seq<nat>,          // the operation each of them belongs to
    cut: nat,               // how many of them are durable
    nextOp: nat,
    disciplined: bool,      // no operation has logged more than MAXOPBLOCKS new blocks
    fits: bool              // the header has never named more blocks than it and the log have room for
  )

  datatype Step =
    | Begin(p: nat) | Sleep(p: nat) | Test(p: nat) | LogWrite(p: nat, b: nat, data: Block) | End(p: nat)
    | CommitWrite | CommitDone | Crash | RecoverWrite | RecoverDone

  // ---------------------------------------------------------------- counting

  /** log.outstanding */
  function Outstanding(procs: seq<Proc>): nat {
    if procs == [] then 0 else
    (if procs[0].InOp? then 1 else 0) + Outstanding(procs[1..])
  }

  /** Log blocks still promised to the operations in progress. */
  function Reserved(procs: seq<Proc>): nat {
    if procs == [] then 0 else
    (if procs[0].InOp? && procs[0].used <= MAXOPBLOCKS then MAXOPBLOCKS - procs[0].used else 0)
    + Reserved(procs[1..])
  }

  function Weight(p: Proc): (int, int) {
    (if p.InOp? then 1 else 0,
     if p.InOp? && p.used <= MAXOPBLOCKS then MAXOPBLOCKS - p.used else 0)
  }

  lemma {:induction false} CountUpdate(procs: seq<Proc>, p: nat, x: Proc)
    requires p < |procs|
    ensures Outstanding(procs[p := x]) == Outstanding(procs) - Weight(procs[p]).0 + Weight(x).0
    ensures Reserved(procs[p := x]) == Reserved(procs) - Weight(procs[p]).1 + Weight(x).1
  {
    if p == 0 {
      assert procs[p := x][1..] == procs[1..];
    } else {
      assert procs[p := x][1..] == procs[1..][p - 1 := x];
      CountUpdate(procs[1..], p - 1, x);
    }
  }

  lemma {:induction false} ReservedBound(procs: seq<Proc>)
    ensures Reserved(procs) <= MAXOPBLOCKS * Outstanding(procs)
  {
    if procs != [] {
      ReservedBound(procs[1..]);
    }
  }

  lemma {:induction false} NoneOutstanding(procs: seq<Proc>)
    ensures Outstanding(procs) == 0 <==> forall i :: 0 <= i < |procs| ==> !procs[i].InOp?
  {
    if procs != [] {
      NoneOutstanding(procs[1..]);
      if forall i :: 0 <= i < |procs| ==> !procs[i].InOp? {
        forall i | 0 <= i < |procs[1..]| ensures !procs[1..][i].InOp? { assert !procs[i + 1].InOp?; }
      }
      if Outstanding(procs) == 0 {
        forall i | 0 <= i < |procs| ensures !procs[i].InOp? {
          if i > 0 { assert procs[i] == procs[1..][i - 1]; }
        }
      }
    }
  }

  /** wakeup(&log): every sleeper goes back to the loop in begin_op. */
  function WakeAll(procs: seq<Proc>): (r: seq<Proc>)
    ensures |r| == |procs|
    ensures forall i :: 0 <= i < |r| ==> r[i] == if procs[i].Asleep? then Idle else procs[i]
    ensures Outstanding(r) == Outstanding(procs) && Reserved(r) == Reserved(procs)
  {
    if procs == [] then [] else
    var r := [if procs[0].Asleep? then Idle else procs[0]] + WakeAll(procs[1..]);
    assert r[1..] == WakeAll(procs[1..]);
    r
  }

  function AllIdle(n: nat): (r: seq<Proc>)
    ensures |r| == n && forall i :: 0 <= i < n ==> r[i] == Idle
    ensures Outstanding(r) == 0 && Reserved(r) == 0
  {
    if n == 0 then [] else
    var r := [Idle] + AllIdle(n - 1);
    assert r[1..] == AllIdle(n - 1);
    r
  }

  // ---------------------------------------------------------------- steps

  /** The test in begin_op that sends a process to sleep. */
  predicate MustWait(s: State) {
    s.phase.Committing? || |s.lh| + (Outstanding(s.procs) + 1) * MAXOPBLOCKS > LOGSIZE
  }

  /** The first test in log_write, which is made without log.lock. */
  predicate LogFull(lay: Layout, s: State) {
    |s.lh| >= LOGSIZE || |s.lh| >= lay.size - 1
  }

  /** All block writes of the commit that started on disk `base`; none for an empty transaction. */
  function Commits(lay: Layout, base: Disk, lh: seq<nat>, cache: Disk): (ws: seq<Write>)
    requires lay.Fits(base) && |cache| == |base| && Loggable(lay, |base|, lh)
    ensures InRange(|base|, ws)
  {
    if lh == [] then [] else CommitWrites(lay, base, lh, cache)
  }

  ghost predicate Enabled(lay: Layout, s: State, a: Step) {
    match a
    case Begin(p) => p < |s.procs| && s.procs[p].Idle? && (s.phase.Running? || s.phase.Committing?) && !MustWait(s)
    case Sleep(p) => p < |s.procs| && s.procs[p].Idle? && (s.phase.Running? || s.phase.Committing?) && MustWait(s)
    case Test(p) => p < |s.procs| && s.procs[p].InOp? && !s.procs[p].tested && s.phase.Running?
    case LogWrite(p, b, _) =>
      && p < |s.procs| && s.procs[p].InOp? && s.procs[p].tested && s.phase.Running?
      && b < |s.cache| && !lay.InLog(b)
    case End(p) => p < |s.procs| && s.procs[p].InOp? && !s.procs[p].tested && s.phase.Running?
    case CommitWrite =>
      && s.phase.Committing? && lay.Fits(s.phase.base) && |s.cache| == |s.phase.base|
      && Loggable(lay, |s.phase.base|, s.lh)
      && s.phase.k < |Commits(lay, s.phase.base, s.lh, s.cache)|
    case CommitDone =>
      && s.phase.Committing? && lay.Fits(s.phase.base) && |s.cache| == |s.phase.base|
      && Loggable(lay, |s.phase.base|, s.lh)
      && s.phase.k == |Commits(lay, s.phase.base, s.lh, s.cache)|
    case Crash => s.cut <= |s.writes| && s.cut <= |s.ops|
    case RecoverWrite =>
      s.phase.Recovering? && WellFormed(lay, s.phase.base) && s.phase.k < |RecoverWrites(lay, s.phase.base)|
    case RecoverDone =>
      s.phase.Recovering? && WellFormed(lay, s.phase.base) && s.phase.k == |RecoverWrites(lay, s.phase.base)|
  }

  ghost function Do(lay: Layout, s: State, a: Step): State
    requires Enabled(lay, s, a)
  {
    match a
    case Begin(p) => s.(procs := s.procs[p := InOp(s.nextOp, 0, false)], nextOp := s.nextOp + 1)
    case Sleep(p) => s.(procs := s.procs[p := Asleep])
    case Test(p) =>
      if LogFull(lay, s) then s.(phase := Panicked) else s.(procs := s.procs[p := s.procs[p].(tested := true)])
    case LogWrite(p, b, data) => DoLogWrite(lay, s, p, b, data)
    case End(p) => DoEnd(s, p)
    case CommitWrite => Advanced(lay, s)
    case CommitDone => s.(lh := [], phase := Running, procs := WakeAll(s.procs))
    case Crash =>
      s.(lh := [], phase := Recovering(s.disk, 0), procs := AllIdle(|s.procs|),
         writes := s.writes[..s.cut], ops := s.ops[..s.cut])
    case RecoverWrite => Retried(lay, s)
    case RecoverDone => s.(cache := s.disk, phase := Running)
  }

  /** The header and the log have room for the blocks lh. */
  predicate Room(lay: Layout, lh: seq<nat>) {
    |lh| <= LOGSIZE && |lh| <= lay.size - 1
  }

  /** log_write under log.lock: a block already in the header is absorbed. */
  function DoLogWrite(lay: Layout, s: State, p: nat, b: nat, data: Block): State
    requires p < |s.procs| && s.procs[p].InOp? && b < |s.cache|
  {
    var isNew := b !in s.lh;
    var used := s.procs[p].used + (if isNew then 1 else 0);
    var lh := if isNew then s.lh + [b] else s.lh;
    s.(cache := s.cache[b := data],
       lh := lh,
       procs := s.procs[p := InOp(s.procs[p].op, used, false)],
       writes := s.writes + [Write(b, data)],
       ops := s.ops + [s.procs[p].op],
       disciplined := s.disciplined && used <= MAXOPBLOCKS,
       fits := s.fits && Room(lay, lh))
  }

  /** end_op up to the release of log.lock: the last operation out starts the commit,
      any other wakes the processes waiting for log space. */
  function DoEnd(s: State, p: nat): State
    requires p < |s.procs|
  {
    var procs := s.procs[p := Idle];
    if Outstanding(procs) == 0 then s.(procs := procs, phase := Committing(s.disk, 0))
    else s.(procs := WakeAll(procs))
  }

  /** t is the state after the steps of a run from s. */
  ghost predicate Run(lay: Layout, s: State, steps: seq<Step>, t: State)
    decreases |steps|
  {
    if steps == [] then s == t
    else Enabled(lay, s, steps[0]) && Run(lay, Do(lay, s, steps[0]), steps[1..], t)
  }

  ghost predicate Init(lay: Layout, s: State) {
    && WellFormed(lay, s.disk) && HeaderCount(s.disk[lay.start]) == 0
    && s == State(s.disk, s.disk, [], AllIdle(|s.procs|), Running, [], [], 0, 0, true, true)
  }

  // ---------------------------------------------------------------- the invariant

  /** The home blocks of d are what the first n logged writes make of the original disk d0. */
  ghost predicate Shows(lay: Layout, d0: Disk, s: State, d: Disk, n: nat) {
    && |d0| == |d| && InRange(|d0|, s.writes) && n <= |s.writes|
    && SameHome(lay, d, After(d0, s.writes, n))
  }

  ghost predicate DiskInv(lay: Layout, d0: Disk, s: State) {
    match s.phase
    case Running =>
      && Transaction(lay, s.disk, s.lh, s.cache)
      && Shows(lay, d0, s, s.disk, s.cut) && Shows(lay, d0, s, s.cache, |s.writes|)
    case Panicked =>
      && WellFormed(lay, s.disk) && HeaderCount(s.disk[lay.start]) == 0
      && Shows(lay, d0, s, s.disk, s.cut)
    case Committing(base, k) =>
      && Transaction(lay, base, s.lh, s.cache)
      && Shows(lay, d0, s, s.cache, |s.writes|)
      && k <= |Commits(lay, base, s.lh, s.cache)|
      && s.disk == After(base, Commits(lay, base, s.lh, s.cache), k)
      && (if k <= |s.lh| then Shows(lay, d0, s, base, s.cut) else s.cut == |s.writes|)
    case Recovering(base, k) =>
      && WellFormed(lay, base) && k <= |RecoverWrites(lay, base)|
      && s.disk == After(base, RecoverWrites(lay, base), k)
      && s.cut == |s.writes|
      && Shows(lay, d0, s, Logical(lay, base), s.cut)
  }

  /** Operation a is in progress. */
  ghost predicate Active(s: State, a: nat) {
    exists p :: 0 <= p < |s.procs| && s.procs[p].InOp? && s.procs[p].op == a
  }

  /** Durable writes belong to operations that have ended; operation numbers are never reused. */
  ghost predicate OpsInv(s: State) {
    && |s.ops| == |s.writes| && s.cut <= |s.writes|
    && (forall i :: 0 <= i < |s.ops| ==> s.ops[i] < s.nextOp)
    && (forall p :: 0 <= p < |s.procs| && s.procs[p].InOp? ==> s.procs[p].op < s.nextOp)
    && (forall i :: 0 <= i < s.cut ==> !Active(s, s.ops[i]))
    && AllOrNothing(s)
  }

  /** No operation has both a durable write and one that a crash would lose. */
  ghost predicate AllOrNothing(s: State) {
    |s.ops| == |s.writes| && forall i, j :: 0 <= i < s.cut <= j < |s.ops| ==> s.ops[i] != s.ops[j]
  }

  ghost predicate CountInv(s: State) {
    && (s.phase.Committing? || s.phase.Recovering? ==> Outstanding(s.procs) == 0)
    && (s.phase.Running? && Outstanding(s.procs) == 0 ==> s.lh == [])
    && (s.lh == [] && (s.phase.Running? || s.phase.Committing?) ==> s.cut == |s.writes|)
    && (s.disciplined ==> |s.lh| + Reserved(s.procs) <= LOGSIZE)
    && (s.disciplined ==> forall p :: 0 <= p < |s.procs| && s.procs[p].InOp? ==> s.procs[p].used <= MAXOPBLOCKS)
    && (s.phase.Running? || s.phase.Committing? ==>
          forall p :: 0 <= p < |s.procs| && s.procs[p].Asleep? ==> MustWait(s))
    && (s.phase.Recovering? ==> s.lh == [] && forall p :: 0 <= p < |s.procs| ==> s.procs[p].Idle?)
    && (s.phase.Recovering? || (s.phase.Committing? && s.phase.k > |s.lh|) ==> s.cut == |s.writes|)
  }

  ghost predicate Inv(lay: Layout, d0: Disk, s: State) {
    && (s.fits ==> Room(lay, s.lh) && DiskInv(lay, d0, s)) && OpsInv(s) && CountInv(s)
    && (s.disciplined && lay.size >= LOGSIZE + 1 ==> s.fits)
  }

  // ---------------------------------------------------------------- disk

  lemma InitInv(lay: Layout, s: State)
    requires Init(lay, s)
    ensures Inv(lay, s.disk, s)
  {
  }

  /** Appending a write leaves what the first n of them do. */
  lemma ShowsExtend(lay: Layout, d0: Disk, s: State, t: State, d: Disk, n: nat)
    requires Shows(lay, d0, s, d, n)
    requires n <= |t.writes| && InRange(|d0|, t.writes)
    requires forall i :: 0 <= i < n ==> s.writes[i] == t.writes[i]
    ensures Shows(lay, d0, t, d, n)
  {
    AfterPrefix(d0, s.writes, t.writes, n);
  }

  lemma LogWriteDisk(lay: Layout, d0: Disk, s: State, p: nat, b: nat, data: Block)
    requires DiskInv(lay, d0, s) && s.phase.Running? && s.cut <= |s.writes|
    requires p < |s.procs| && s.procs[p].InOp? && b < |s.cache| && !lay.InLog(b)
    requires Room(lay, DoLogWrite(lay, s, p, b, data).lh)
    ensures DiskInv(lay, d0, DoLogWrite(lay, s, p, b, data))
  {
    var t := DoLogWrite(lay, s, p, b, data);
    ShowsExtend(lay, d0, s, t, s.disk, s.cut);
    ShowsExtend(lay, d0, s, t, s.cache, |s.writes|);
    assert After(d0, t.writes, |t.writes|) == After(d0, t.writes, |s.writes|)[b := data];
  }

  lemma EndDisk(lay: Layout, d0: Disk, s: State, p: nat)
    requires DiskInv(lay, d0, s) && s.phase.Running? && p < |s.procs|
    ensures DiskInv(lay, d0, DoEnd(s, p))
  {
    var t := DoEnd(s, p);
    if t.phase.Committing? {
      assert Shows(lay, d0, t, s.disk, s.cut);
    }
  }

  /** The state after one more of commit's writes. */
  function Advanced(lay: Layout, s: State): State
    requires Enabled(lay, s, CommitWrite)
  {
    var k := s.phase.k + 1;
    s.(disk := After(s.phase.base, Commits(lay, s.phase.base, s.lh, s.cache), k), phase := Committing(s.phase.base, k),
       cut := if k == |s.lh| + 1 then |s.writes| else s.cut)
  }

  lemma CommitWriteDisk(lay: Layout, d0: Disk, s: State)
    requires DiskInv(lay, d0, s) && Enabled(lay, s, CommitWrite)
    ensures DiskInv(lay, d0, Advanced(lay, s))
  {
    var t := Advanced(lay, s);
    assert Shows(lay, d0, t, s.cache, |s.writes|);
    if t.phase.k <= |s.lh| {
      assert Shows(lay, d0, t, s.phase.base, s.cut);
    }
  }

  /** The end of a commit: the header is empty again and the home blocks are the cache's. */
  lemma CommitDoneDisk(lay: Layout, d0: Disk, s: State)
    requires DiskInv(lay, d0, s) && Enabled(lay, s, CommitDone)
    requires s.lh == [] ==> s.cut == |s.writes|
    ensures DiskInv(lay, d0, Do(lay, s, CommitDone))
  {
    var t := Do(lay, s, CommitDone);
    var base := s.phase.base;
    if s.lh == [] {
      assert Transaction(lay, t.disk, [], t.cache);
    } else {
      CompleteCommit(lay, base, s.lh, s.cache);
    }
    assert Shows(lay, d0, t, s.cache, |s.writes|);
  }

  lemma CrashDisk(lay: Layout, d0: Disk, s: State)
    requires DiskInv(lay, d0, s) && OpsInv(s)
    ensures DiskInv(lay, d0, Do(lay, s, Crash))
  {
    var t := Do(lay, s, Crash);
    CrashMeaning(lay, d0, s);
    ShowsExtend(lay, d0, s, t, Logical(lay, s.disk), s.cut);
  }

  /** Whatever the phase, the disk means exactly the durable writes. */
  lemma CrashMeaning(lay: Layout, d0: Disk, s: State)
    requires DiskInv(lay, d0, s)
    ensures WellFormed(lay, s.disk) && Shows(lay, d0, s, Logical(lay, s.disk), s.cut)
  {
    match s.phase
    case Running => NoHeaderMeaning(lay, s.disk);
    case Panicked => NoHeaderMeaning(lay, s.disk);
    case Committing(base, k) =>
      if s.lh == [] {
        NoHeaderMeaning(lay, s.disk);
      } else {
        InterruptedCommit(lay, base, s.lh, s.cache, k);
      }
    case Recovering(base, k) => InterruptedRecovery(lay, base, k);
  }

  lemma NoHeaderMeaning(lay: Layout, d: Disk)
    requires WellFormed(lay, d) && HeaderCount(d[lay.start]) == 0
    ensures Logical(lay, d) == d
  {
    EmptyLog(lay, d, d[lay.start]);
    assert d[lay.start := d[lay.start]] == d;
  }

  lemma RecoverDoneDisk(lay: Layout, d0: Disk, s: State)
    requires DiskInv(lay, d0, s) && Enabled(lay, s, RecoverDone) && s.lh == []
    ensures DiskInv(lay, d0, Do(lay, s, RecoverDone))
  {
    var t := Do(lay, s, RecoverDone);
    CompleteRecovery(lay, s.phase.base);
    assert Shows(lay, d0, t, t.disk, t.cut);
  }

  // ---------------------------------------------------------------- operations and counters

  /** Durable writes stay with ended operations if no operation becomes active but a new one. */
  lemma KeepEnded(s: State, t: State)
    requires OpsInv(s) && t.cut <= |s.ops| && t.cut <= |t.ops|
    requires forall i :: 0 <= i < t.cut ==> t.ops[i] == s.ops[i]
    requires forall p :: 0 <= p < |t.procs| && t.procs[p].InOp? ==>
               t.procs[p].op == s.nextOp || Active(s, t.procs[p].op)
    requires t.cut == s.cut || forall a :: !Active(s, a)
    ensures forall i :: 0 <= i < t.cut ==> !Active(t, t.ops[i])
  {
  }

  lemma LogWriteOps(lay: Layout, s: State, p: nat, b: nat, data: Block)
    requires OpsInv(s)
    requires p < |s.procs| && s.procs[p].InOp? && b < |s.cache|
    ensures OpsInv(DoLogWrite(lay, s, p, b, data))
  {
    assert Active(s, s.procs[p].op);
  }

  lemma BeginOps(lay: Layout, s: State, p: nat)
    requires OpsInv(s) && Enabled(lay, s, Begin(p))
    ensures OpsInv(Do(lay, s, Begin(p)))
  {
    KeepEnded(s, Do(lay, s, Begin(p)));
  }

  lemma TestOps(lay: Layout, s: State, p: nat)
    requires OpsInv(s) && Enabled(lay, s, Test(p))
    ensures OpsInv(Do(lay, s, Test(p)))
  {
    assert Active(s, s.procs[p].op);
    KeepEnded(s, Do(lay, s, Test(p)));
  }

  lemma EndOps(s: State, p: nat)
    requires OpsInv(s) && p < |s.procs|
    ensures OpsInv(DoEnd(s, p))
  {
    KeepEnded(s, DoEnd(s, p));
  }

  lemma CommitWriteOps(lay: Layout, s: State)
    requires OpsInv(s) && Enabled(lay, s, CommitWrite) && Outstanding(s.procs) == 0
    ensures OpsInv(Do(lay, s, CommitWrite))
  {
    NoneOutstanding(s.procs);
  }

  lemma StepOps(lay: Layout, s: State, a: Step)
    requires OpsInv(s) && Enabled(lay, s, a)
    requires s.phase.Committing? ==> Outstanding(s.procs) == 0
    ensures OpsInv(Do(lay, s, a))
  {
    match a
    case Begin(p) => BeginOps(lay, s, p);
    case Sleep(p) => KeepEnded(s, Do(lay, s, a));
    case Test(p) => TestOps(lay, s, p);
    case LogWrite(p, b, data) => LogWriteOps(lay, s, p, b, data);
    case End(p) => EndOps(s, p);
    case CommitWrite => CommitWriteOps(lay, s);
    case CommitDone => KeepEnded(s, Do(lay, s, a));
    case Crash =>
    case RecoverWrite => KeepEnded(s, Do(lay, s, a));
    case RecoverDone => KeepEnded(s, Do(lay, s, a));
  }

  lemma LogWriteCount(lay: Layout, s: State, p: nat, b: nat, data: Block)
    requires CountInv(s) && s.phase.Running?
    requires p < |s.procs| && s.procs[p].InOp? && b < |s.cache|
    ensures CountInv(DoLogWrite(lay, s, p, b, data))
  {
    CountUpdate(s.procs, p, DoLogWrite(lay, s, p, b, data).procs[p]);
    NoneOutstanding(s.procs);
  }

  lemma BeginCount(lay: Layout, s: State, p: nat)
    requires CountInv(s) && Enabled(lay, s, Begin(p))
    ensures CountInv(Do(lay, s, Begin(p)))
  {
    CountUpdate(s.procs, p, InOp(s.nextOp, 0, false));
    ReservedBound(s.procs);
  }

  lemma EndCount(lay: Layout, s: State, p: nat)
    requires CountInv(s) && Enabled(lay, s, End(p))
    ensures CountInv(Do(lay, s, End(p)))
  {
    CountUpdate(s.procs, p, Idle);
  }

  lemma CommitCount(lay: Layout, s: State, a: Step)
    requires CountInv(s) && Enabled(lay, s, a) && (a.CommitWrite? || a.CommitDone?)
    ensures CountInv(Do(lay, s, a))
  {
  }

  lemma RecoverCount(lay: Layout, s: State, a: Step)
    requires CountInv(s) && Enabled(lay, s, a) && (a.RecoverWrite? || a.RecoverDone?)
    ensures CountInv(Do(lay, s, a))
  {
  }

  predicate ByProcess(a: Step) { a.Begin? || a.Sleep? || a.Test? || a.LogWrite? || a.End? }

  lemma ProcessCount(lay: Layout, s: State, a: Step)
    requires CountInv(s) && Enabled(lay, s, a) && ByProcess(a)
    ensures CountInv(Do(lay, s, a))
  {
    match a
    case Begin(p) => BeginCount(lay, s, p);
    case Sleep(p) => CountUpdate(s.procs, p, Asleep);
    case Test(p) => if !LogFull(lay, s) { CountUpdate(s.procs, p, s.procs[p].(tested := true)); }
    case LogWrite(p, b, data) => LogWriteCount(lay, s, p, b, data);
    case End(p) => EndCount(lay, s, p);
  }

  lemma StepCount(lay: Layout, s: State, a: Step)
    requires CountInv(s) && OpsInv(s) && Enabled(lay, s, a)
    ensures CountInv(Do(lay, s, a))
  {
    if ByProcess(a) {
      ProcessCount(lay, s, a);
    } else if a.CommitWrite? || a.CommitDone? {
      CommitCount(lay, s, a);
    } else if a.RecoverWrite? || a.RecoverDone? {
      RecoverCount(lay, s, a);
    }
  }

  // ---------------------------------------------------------------- every step, every run

  lemma SameDisk(lay: Layout, d0: Disk, s: State, t: State)
    requires DiskInv(lay, d0, s)
    requires t == s.(procs := t.procs, nextOp := t.nextOp)
    ensures DiskInv(lay, d0, t)
  {
  }

  /** The state after one more of recovery's writes. */
  function Retried(lay: Layout, s: State): State
    requires Enabled(lay, s, RecoverWrite)
  {
    var k := s.phase.k + 1;
    s.(disk := After(s.phase.base, RecoverWrites(lay, s.phase.base), k), phase := Recovering(s.phase.base, k))
  }

  lemma RecoverWriteDisk(lay: Layout, d0: Disk, s: State)
    requires DiskInv(lay, d0, s) && Enabled(lay, s, RecoverWrite)
    ensures DiskInv(lay, d0, Retried(lay, s))
  {
    assert Shows(lay, d0, Retried(lay, s), Logical(lay, s.phase.base), s.cut);
  }

  lemma ProcessDisk(lay: Layout, d0: Disk, s: State, a: Step)
    requires Inv(lay, d0, s) && Enabled(lay, s, a) && Do(lay, s, a).fits && ByProcess(a)
    ensures DiskInv(lay, d0, Do(lay, s, a))
  {
    match a
    case Begin(p) => SameDisk(lay, d0, s, Do(lay, s, a));
    case Sleep(p) => SameDisk(lay, d0, s, Do(lay, s, a));
    case Test(p) => if !LogFull(lay, s) { SameDisk(lay, d0, s, Do(lay, s, a)); }
    case LogWrite(p, b, data) => LogWriteDisk(lay, d0, s, p, b, data);
    case End(p) => EndDisk(lay, d0, s, p);
  }

  lemma MachineDisk(lay: Layout, d0: Disk, s: State, a: Step)
    requires Inv(lay, d0, s) && Enabled(lay, s, a) && Do(lay, s, a).fits && !ByProcess(a)
    ensures DiskInv(lay, d0, Do(lay, s, a))
  {
    match a
    case CommitWrite => CommitWriteDisk(lay, d0, s);
    case CommitDone => CommitDoneDisk(lay, d0, s);
    case Crash => CrashDisk(lay, d0, s);
    case RecoverWrite => RecoverWriteDisk(lay, d0, s);
    case RecoverDone => RecoverDoneDisk(lay, d0, s);
  }

  lemma StepDisk(lay: Layout, d0: Disk, s: State, a: Step)
    requires Inv(lay, d0, s) && Enabled(lay, s, a)
    ensures Do(lay, s, a).fits ==> DiskInv(lay, d0, Do(lay, s, a))
  {
    if Do(lay, s, a).fits {
      if ByProcess(a) { ProcessDisk(lay, d0, s, a); } else { MachineDisk(lay, d0, s, a); }
    }
  }

  lemma StepRoom(lay: Layout, s: State, a: Step)
    requires Enabled(lay, s, a) && CountInv(Do(lay, s, a)) && (s.fits ==> Room(lay, s.lh))
    requires s.disciplined && lay.size >= LOGSIZE + 1 ==> s.fits
    ensures var t := Do(lay, s, a);
      (t.fits ==> Room(lay, t.lh)) && (t.disciplined && lay.size >= LOGSIZE + 1 ==> t.fits)
  {
  }

  lemma StepInv(lay: Layout, d0: Disk, s: State, a: Step)
    requires Inv(lay, d0, s) && Enabled(lay, s, a)
    ensures Inv(lay, d0, Do(lay, s, a))
  {
    StepDisk(lay, d0, s, a);
    StepOps(lay, s, a);
    StepCount(lay, s, a);
    StepRoom(lay, s, a);
  }

  lemma {:induction false} RunInv(lay: Layout, d0: Disk, s: State, steps: seq<Step>, t: State)
    requires Inv(lay, d0, s) && Run(lay, s, steps, t)
    ensures Inv(lay, d0, t)
    decreases |steps|
  {
    if steps != [] {
      StepInv(lay, d0, s, steps[0]);
      RunInv(lay, d0, Do(lay, s, steps[0]), steps[1..], t);
    }
  }

  /** While every operation keeps to its budget and the log has LOGSIZE blocks besides its header, the header never
      names more blocks than there is room for, although the test for that is made without the lock. */
  lemma BudgetFits(lay: Layout, s: State, steps: seq<Step>, t: State)
    requires Init(lay, s) && Run(lay, s, steps, t) && t.disciplined && lay.size >= LOGSIZE + 1
    ensures t.fits && Room(lay, t.lh)
  {
    InitInv(lay, s);
    RunInv(lay, s.disk, s, steps, t);
  }

  /** Operations are atomic across crashes. In every state of every run in which the header has always had room: a
      crash now, followed by any number of interrupted recoveries and a complete one, yields the original disk with
      exactly the first `cut` logged writes applied in order; and no operation has writes on both sides of that cut. */
  lemma CrashSafety(lay: Layout, s: State, steps: seq<Step>, t: State, crashes: seq<nat>)
    requires Init(lay, s) && Run(lay, s, steps, t)
    requires t.fits || (t.disciplined && lay.size >= LOGSIZE + 1)
    ensures AllOrNothing(t) && t.cut <= |t.writes| && InRange(|s.disk|, t.writes)
    ensures WellFormed(lay, t.disk)
    ensures var retried := InterruptedRecoveries(lay, t.disk, crashes);
            var final := After(retried, RecoverWrites(lay, retried), |RecoverWrites(lay, retried)|);
            SameHome(lay, final, After(s.disk, t.writes, t.cut)) && HeaderCount(final[lay.start]) == 0
  {
    InitInv(lay, s);
    RunInv(lay, s.disk, s, steps, t);
    CrashMeaning(lay, s.disk, t);
    RecoveriesKeepMeaning(lay, t.disk, crashes);
  }

  /** Durability: when no operation is in progress and no commit is running, everything logged
      is durable. */
  lemma QuietMeansDurable(lay: Layout, s: State, steps: seq<Step>, t: State)
    requires Init(lay, s) && Run(lay, s, steps, t)
    requires t.fits || (t.disciplined && lay.size >= LOGSIZE + 1)
    requires t.phase.Running? && Outstanding(t.procs) == 0
    ensures t.cut == |t.writes| && SameHome(lay, t.disk, t.cache)
  {
    InitInv(lay, s);
    RunInv(lay, s.disk, s, steps, t);
  }

  /** The durable writes of s are the first durable writes of t. */
  ghost predicate Keeps(s: State, t: State) {
    && s.cut <= |s.writes| && s.cut <= t.cut <= |t.writes|
    && forall i :: 0 <= i < s.cut ==> t.writes[i] == s.writes[i]
  }

  lemma StepDurable(lay: Layout, s: State, a: Step)
    requires OpsInv(s) && Enabled(lay, s, a)
    ensures Keeps(s, Do(lay, s, a))
  {
  }

  lemma {:induction false} RunDurable(lay: Layout, d0: Disk, s: State, steps: seq<Step>, t: State)
    requires Inv(lay, d0, s) && Run(lay, s, steps, t)
    ensures Keeps(s, t)
    decreases |steps|
  {
    if steps != [] {
      var s1 := Do(lay, s, steps[0]);
      StepInv(lay, d0, s, steps[0]);
      StepDurable(lay, s, steps[0]);
      RunDurable(lay, d0, s1, steps[1..], t);
    }
  }

  /** A durable write is never lost: no continuation of a run, crashes included, takes away or
      reorders any of the first `cut` writes. */
  lemma DurableForever(lay: Layout, s: State, steps: seq<Step>, t: State, more: seq<Step>, u: State)
    requires Init(lay, s) && Run(lay, s, steps, t) && Run(lay, t, more, u)
    ensures Keeps(t, u)
  {
    InitInv(lay, s);
    RunInv(lay, s.disk, s, steps, t);
    RunDurable(lay, s.disk, t, more, u);
  }

  /** Admission: while no operation exceeds its budget, the log's contents plus everything still
      promised to operations in progress fit in LOGSIZE; a commit runs only with no operation in
      progress; and a process asleep in begin_op is one that begin_op would still not admit, so an
      operation is in progress or a commit is running and a wakeup is still to come. */
  lemma Admission(lay: Layout, s: State, steps: seq<Step>, t: State)
    requires Init(lay, s) && Run(lay, s, steps, t)
    ensures t.disciplined ==> |t.lh| + Reserved(t.procs) <= LOGSIZE
    ensures t.phase.Committing? ==> InProgress(t.procs, 0) == {}
    ensures !t.phase.Panicked? && (exists p :: 0 <= p < |t.procs| && t.procs[p].Asleep?) ==>
              || t.phase.Committing?
              || (InProgress(t.procs, 0) != {} && |t.lh| + 10 * (|InProgress(t.procs, 0)| + 1) > 30)
  {
    InitInv(lay, s);
    RunInv(lay, s.disk, s, steps, t);
    CountInProgress(t.procs, 0);
  }

  /** The processes from k on that are in an operation. */
  ghost function InProgress(procs: seq<Proc>, k: nat): set<nat> { set p: nat | k <= p < |procs| && procs[p].InOp? }

  lemma {:induction false} CountInProgress(procs: seq<Proc>, k: nat)
    requires k <= |procs|
    ensures Outstanding(procs[k..]) == |InProgress(procs, k)|
    ensures k == 0 ==> procs[k..] == procs
    decreases |procs| - k
  {
    if k == |procs| {
      assert InProgress(procs, k) == {};
    } else {
      CountInProgress(procs, k + 1);
      assert procs[k..][1..] == procs[k + 1..];
      var rest := InProgress(procs, k + 1);
      assert InProgress(procs, k) == if procs[k].InOp? then rest + {k} else rest;
    }
  }

  /** begin_op admits a process exactly when no commit runs and the blocks logged, with a whole budget of ten for each
      operation in progress and for its own, are at most thirty; otherwise the process sleeps. */
  lemma AdmittedExactly(lay: Layout, s: State, p: nat)
    requires p < |s.procs| && s.procs[p].Idle? && (s.phase.Running? || s.phase.Committing?)
    ensures Enabled(lay, s, Begin(p)) <==>
      s.phase.Running? && |s.lh| + 10 * (|InProgress(s.procs, 0)| + 1) <= 30
    ensures Enabled(lay, s, Sleep(p)) <==> !Enabled(lay, s, Begin(p))
    ensures Enabled(lay, s, Begin(p)) ==>
      InProgress(Do(lay, s, Begin(p)).procs, 0) == InProgress(s.procs, 0) + {p}
  {
    CountInProgress(s.procs, 0);
  }

  /** log_write does not panic for an operation with budget left, when the on-disk log has room for
      LOGSIZE blocks besides its header. */
  lemma NoPanicWithBudget(lay: Layout, s: State, steps: seq<Step>, t: State, p: nat)
    requires Init(lay, s) && Run(lay, s, steps, t) && lay.size >= LOGSIZE + 1
    requires t.disciplined && p < |t.procs| && t.procs[p].InOp? && t.procs[p].used < MAXOPBLOCKS
    ensures !LogFull(lay, t)
  {
    InitInv(lay, s);
    RunInv(lay, s.disk, s, steps, t);
    CountUpdate(t.procs, p, Idle);
  }

  // ---------------------------------------------------------------- building runs

  lemma {:induction false} RunAppend(lay: Layout, s: State, steps: seq<Step>, t: State, a: Step)
    requires Run(lay, s, steps, t) && Enabled(lay, t, a)
    ensures Run(lay, s, steps + [a], Do(lay, t, a))
    decreases |steps|
  {
    if steps == [] {
      assert Run(lay, Do(lay, t, a), [], Do(lay, t, a));
      assert [a][1..] == [];
    } else {
      RunAppend(lay, Do(lay, s, steps[0]), steps[1..], t, a);
      assert (steps + [a])[1..] == steps[1..] + [a];
    }
  }
}
