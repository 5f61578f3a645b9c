/** The file system on the log: what a crash takes the volume back to, and how the blocks that a system call logs count
    against its budget. */
module Durability {
  import opened Bytes
  import opened Volume
  import opened Space
  import opened FileSystem
  import opened Sysfile
  import Log = LogDisk
  import P = LogProtocol
  import LinkCount

  // ---------------------------------------------------------------- what a crash goes back to

  /** The next step writes the header of a transaction. */
  predicate WritesHeader(s: P.State, a: P.Step) {
    a.CommitWrite? && s.phase.Committing? && s.phase.k == |s.lh|
  }

  /** The cache when the header of the last transaction was written; q if there was none in this run. */
  ghost function Saved(lay: Log.Layout, s: P.State, steps: seq<P.Step>, q: Disk): Disk
    decreases |steps|
  {
    if steps == [] || !P.Enabled(lay, s, steps[0]) then q
    else Saved(lay, P.Do(lay, s, steps[0]), steps[1..], if WritesHeader(s, steps[0]) then s.cache else q)
  }

  /** The home blocks of q are what the durable writes have made of d0. */
  ghost predicate Durable(lay: Log.Layout, d0: Disk, s: P.State, q: Disk) {
    Log.InRange(|d0|, s.writes) && s.cut <= |s.writes| && Log.SameHome(lay, q, Log.After(d0, s.writes, s.cut))
  }

  /** Only the header write makes writes durable. */
  lemma CutStays(lay: Log.Layout, s: P.State, a: P.Step)
    requires P.Enabled(lay, s, a) && !WritesHeader(s, a)
    ensures P.Do(lay, s, a).cut == s.cut
  {
  }

  lemma StepSaves(lay: Log.Layout, d0: Disk, s: P.State, a: P.Step, q: Disk)
    requires P.Inv(lay, d0, s) && P.Enabled(lay, s, a) && P.Do(lay, s, a).fits && Durable(lay, d0, s, q)
    ensures Durable(lay, d0, P.Do(lay, s, a), if WritesHeader(s, a) then s.cache else q)
  {
    if !WritesHeader(s, a) {
      var t := P.Do(lay, s, a);
      P.StepInv(lay, d0, s, a);
      P.CrashMeaning(lay, d0, t);
      CutStays(lay, s, a);
      P.StepDurable(lay, s, a);
      Log.AfterPrefix(d0, s.writes, t.writes, s.cut);
    }
  }

  lemma {:induction false} RunSaves(lay: Log.Layout, d0: Disk, s: P.State, steps: seq<P.Step>, t: P.State, q: Disk)
    requires P.Inv(lay, d0, s) && P.Run(lay, s, steps, t) && t.fits && (s.fits ==> Durable(lay, d0, s, q))
    ensures s.fits && Durable(lay, d0, t, Saved(lay, s, steps, q))
    decreases |steps|
  {
    if steps != [] {
      var s1 := P.Do(lay, s, steps[0]);
      P.StepInv(lay, d0, s, steps[0]);
      if s1.fits {
        StepSaves(lay, d0, s, steps[0], q);
      }
      RunSaves(lay, d0, s1, steps[1..], t, if WritesHeader(s, steps[0]) then s.cache else q);
    }
  }

  /** The disk after a crash now, interrupted recoveries and a complete one. */
  function Recovered(lay: Log.Layout, d: Disk, crashes: seq<nat>): Disk
    requires Log.WellFormed(lay, d)
  {
    var retried := Log.InterruptedRecoveries(lay, d, crashes);
    Log.After(retried, Log.RecoverWrites(lay, retried), |Log.RecoverWrites(lay, retried)|)
  }

  /** A crash, in any state of any run in which the header has had room, takes every home block back to what the cache
      held when the header of the last transaction was written, a moment with no operation in progress; to the disk
      that the run started with if there was no transaction. */
  lemma CrashGoesBack(lay: Log.Layout, s: P.State, steps: seq<P.Step>, t: P.State, crashes: seq<nat>)
    requires P.Init(lay, s) && P.Run(lay, s, steps, t)
    requires t.fits || (t.disciplined && lay.size >= Log.LOGSIZE + 1)
    ensures Log.WellFormed(lay, t.disk)
    ensures Log.SameHome(lay, Recovered(lay, t.disk, crashes), Saved(lay, s, steps, s.disk))
  {
    P.InitInv(lay, s);
    P.RunInv(lay, s.disk, s, steps, t);
    P.CrashSafety(lay, s, steps, t, crashes);
    RunSaves(lay, s.disk, s, steps, t, s.disk);
  }

  // ---------------------------------------------------------------- the volume

  /** A well-formed volume without holes that holds the tree v, whose link counts are right. */
  ghost predicate StandsAs(sb: Superblock, d: Disk, t: Table, v: LinkCount.Tree) {
    && Wf(sb, d, t) && NoHoles(sb, d, t) && (forall i :: 0 <= i < |t| ==> OnDisk(sb, d, i) == t[i])
    && Holds(sb, d, t, v) && LinkCount.Inv(v)
  }

  ghost predicate Stands(sb: Superblock, d: Disk) {
    exists t, v :: StandsAs(sb, d, t, v)
  }

  /** Blocks from the inodes on are the same. */
  ghost predicate SameVolume(sb: Superblock, d: Disk, d': Disk) {
    |d'| == |d| && forall b {:trigger d'[b]} :: sb.inodestart <= b < |d| ==> d'[b] == d[b]
  }

  lemma SameVolumeWf(sb: Superblock, d: Disk, d': Disk, t: Table)
    requires Wf(sb, d, t) && NoHoles(sb, d, t) && SameVolume(sb, d, d')
    ensures Wf(sb, d', t) && NoHoles(sb, d', t) && SameAddrs(sb, d, t, d', t) && SameFiles(sb, d, t, d', t)
  {
    forall i, k | 0 <= i < |t| && 0 <= k < NSLOTS ensures Addr(sb, d', t, i, k) == Addr(sb, d, t, i, k) {
      assert Addr(sb, d, t, i, NDIRECT) == t[i].addrs[NDIRECT];
    }
    forall b | 0 <= b < sb.size ensures Used(sb, d', b) == Used(sb, d, b) {
      assert sb.inodestart <= sb.BBlock(b) < |d|;
    }
    forall i, bn | 0 <= i < |t| && 0 <= bn < MAXFILE ensures FileBlock(sb, d', t, i, bn) == FileBlock(sb, d, t, i, bn) {
      assert Addr(sb, d', t, i, DataSlot(bn)) == Addr(sb, d, t, i, DataSlot(bn));
    }
  }

  /** A volume stands wherever its own blocks are. */
  lemma SameVolumeStands(sb: Superblock, d: Disk, d': Disk)
    requires Stands(sb, d) && SameVolume(sb, d, d')
    ensures Stands(sb, d')
  {
    var t, v :| StandsAs(sb, d, t, v);
    SameVolumeWf(sb, d, d', t);
    forall i | 0 <= i < |t|
      ensures NodeAt(sb, d', t, i) == NodeAt(sb, d, t, i) && OnDisk(sb, d', i) == OnDisk(sb, d, i)
    {
      assert Contents(sb, d', t, i) == Contents(sb, d, t, i);
      assert sb.inodestart <= sb.IBlock(i) < |d|;
    }
    assert StandsAs(sb, d', t, v);
  }

  /** Whenever a commit is running, and so no system call, the volume in the cache stands. */
  ghost predicate QuietStands(lay: Log.Layout, sb: Superblock, s: P.State, steps: seq<P.Step>)
    decreases |steps|
  {
    && (s.phase.Committing? ==> Stands(sb, s.cache))
    && (steps == [] || (P.Enabled(lay, s, steps[0]) && QuietStands(lay, sb, P.Do(lay, s, steps[0]), steps[1..])))
  }

  lemma {:induction false} SavedStands(lay: Log.Layout, sb: Superblock, s: P.State, steps: seq<P.Step>, q: Disk)
    requires Stands(sb, q) && QuietStands(lay, sb, s, steps)
    ensures Stands(sb, Saved(lay, s, steps, q))
    decreases |steps|
  {
    if steps != [] {
      var q' := if WritesHeader(s, steps[0]) then s.cache else q;
      SavedStands(lay, sb, P.Do(lay, s, steps[0]), steps[1..], q');
    }
  }

  /** The file system survives crashes: if system calls leave the volume well-formed, without holes and with right link
      counts whenever none of them is in progress, then so does every crash, in the middle of any of them, of a commit
      or of a recovery, once recovery has run. */
  lemma VolumeSurvives(lay: Log.Layout, sb: Superblock, s: P.State, steps: seq<P.Step>, t: P.State, crashes: seq<nat>)
    requires P.Init(lay, s) && P.Run(lay, s, steps, t)
    requires t.fits || (t.disciplined && lay.size >= Log.LOGSIZE + 1)
    requires lay.start + lay.size <= sb.inodestart && Stands(sb, s.disk) && QuietStands(lay, sb, s, steps)
    ensures Log.WellFormed(lay, t.disk) && Stands(sb, Recovered(lay, t.disk, crashes))
  {
    CrashGoesBack(lay, s, steps, t, crashes);
    SavedStands(lay, sb, s, steps, s.disk);
    SameVolumeStands(sb, Saved(lay, s, steps, s.disk), Recovered(lay, t.disk, crashes));
  }

  /** What system calls promise is what it takes. */
  lemma ShowsStands(fs: Fs, v: LinkCount.Tree)
    requires Shows(fs, v) && LinkCount.Inv(v)
    ensures Stands(fs.sb, fs.disk)
  {
    assert StandsAs(fs.sb, fs.disk, fs.table, v);
  }

  // ---------------------------------------------------------------- the budget, counted in blocks

  /** The blocks that operation a has logged. */
  ghost function BlocksOf(s: P.State, a: nat): set<nat> {
    set i | 0 <= i < |s.writes| && i < |s.ops| && s.ops[i] == a :: s.writes[i].bno
  }

  /** Process p is in an operation that has logged only blocks that are in the header, no fewer of them than it has
      added; if it is past the test of log_write, it had logged fewer than MAXOPBLOCKS. */
  ghost predicate Counts(s: P.State, p: nat)
    requires p < |s.procs|
  {
    s.procs[p].InOp? ==>
      var bs := BlocksOf(s, s.procs[p].op);
      && (forall b :: b in bs ==> b in s.lh) && s.procs[p].used <= |bs|
      && (s.procs[p].tested ==> |bs| < Log.MAXOPBLOCKS)
  }

  ghost predicate BlocksInv(s: P.State) {
    && (forall p {:trigger Counts(s, p)} :: 0 <= p < |s.procs| ==> Counts(s, p))
    && forall p, q :: 0 <= p < q < |s.procs| && s.procs[p].InOp? && s.procs[q].InOp? ==> s.procs[p].op != s.procs[q].op
  }

  /** At every call of log_write the operation has logged fewer than MAXOPBLOCKS different blocks. */
  ghost predicate Thrifty(lay: Log.Layout, s: P.State, steps: seq<P.Step>)
    decreases |steps|
  {
    steps == [] || (
      && P.Enabled(lay, s, steps[0])
      && (steps[0].Test? ==> |BlocksOf(s, s.procs[steps[0].p].op)| < Log.MAXOPBLOCKS)
      && Thrifty(lay, P.Do(lay, s, steps[0]), steps[1..])
    )
  }

  lemma LogWriteBlocks(lay: Log.Layout, s: P.State, p: nat, b: nat, data: Block, a: nat)
    requires p < |s.procs| && s.procs[p].InOp? && b < |s.cache| && |s.ops| == |s.writes|
    ensures BlocksOf(P.DoLogWrite(lay, s, p, b, data), a)
         == BlocksOf(s, a) + if a == s.procs[p].op then {b} else {}
  {
    var t := P.DoLogWrite(lay, s, p, b, data);
    var n := |s.writes|;
    assert t.writes[n].bno == b && t.ops[n] == s.procs[p].op;
    forall x | x in BlocksOf(s, a) ensures x in BlocksOf(t, a) {
      var i :| 0 <= i < n && s.ops[i] == a && s.writes[i].bno == x;
      assert t.writes[i].bno == x && t.ops[i] == a;
    }
    forall x | x in BlocksOf(t, a) ensures x in BlocksOf(s, a) + if a == s.procs[p].op then {b} else {} {
      var i :| 0 <= i <= n && t.ops[i] == a && t.writes[i].bno == x;
      if i < n { assert s.writes[i].bno == x && s.ops[i] == a; }
    }
  }

  lemma LogWriteCounts(lay: Log.Layout, s: P.State, p: nat, b: nat, data: Block, q: nat)
    requires BlocksInv(s) && P.Enabled(lay, s, P.LogWrite(p, b, data)) && |s.ops| == |s.writes| && q < |s.procs|
    ensures Counts(P.DoLogWrite(lay, s, p, b, data), q)
    ensures q == p ==> P.DoLogWrite(lay, s, p, b, data).procs[p].used <= Log.MAXOPBLOCKS
  {
    assert Counts(s, q) && Counts(s, p);
    if s.procs[q].InOp? {
      LogWriteBlocks(lay, s, p, b, data, s.procs[q].op);
    }
  }

  /** Operations that have not begun have logged nothing. */
  lemma NewOpBlocks(s: P.State)
    requires P.OpsInv(s)
    ensures BlocksOf(s, s.nextOp) == {}
  {
  }

  /** From s to t process q has stayed where it was in its operation, begun one or passed the test of log_write. */
  ghost predicate Moves(s: P.State, t: P.State, q: nat)
    requires q < |s.procs| == |t.procs|
  {
    || t.procs[q] == s.procs[q] || t.procs[q] == P.InOp(s.nextOp, 0, false)
    || (s.procs[q].InOp? && t.procs[q] == s.procs[q].(tested := true))
  }

  lemma StepMoves(lay: Log.Layout, s: P.State, a: P.Step, q: nat)
    requires P.Enabled(lay, s, a) && q < |s.procs| && (s.phase.Committing? ==> !s.procs[q].InOp?)
    ensures var t := P.Do(lay, s, a);
      && |t.procs| == |s.procs|
      && (t.procs[q].InOp? && !a.LogWrite? ==>
            t.writes == s.writes && t.ops == s.ops && t.lh == s.lh && Moves(s, t, q))
      && (t.procs[q].InOp? && t.procs[q] != s.procs[q] && !a.LogWrite? ==> a == P.Begin(q) || a == P.Test(q))
  {
  }

  lemma KeepsCounts(s: P.State, t: P.State, q: nat)
    requires q < |s.procs| == |t.procs| && Counts(s, q) && P.OpsInv(s) && t.procs[q].InOp?
    requires t.writes == s.writes && t.ops == s.ops && t.lh == s.lh && Moves(s, t, q)
    requires t.procs[q].tested && !s.procs[q].tested ==> |BlocksOf(s, s.procs[q].op)| < Log.MAXOPBLOCKS
    ensures Counts(t, q)
  {
    NewOpBlocks(s);
    assert BlocksOf(t, t.procs[q].op) == BlocksOf(s, t.procs[q].op);
  }

  lemma StepCounts(lay: Log.Layout, s: P.State, a: P.Step, q: nat)
    requires BlocksInv(s) && P.OpsInv(s) && P.CountInv(s) && P.Enabled(lay, s, a) && q < |s.procs|
    requires a.Test? ==> |BlocksOf(s, s.procs[a.p].op)| < Log.MAXOPBLOCKS
    ensures |P.Do(lay, s, a).procs| == |s.procs| && Counts(P.Do(lay, s, a), q)
  {
    var t := P.Do(lay, s, a);
    assert Counts(s, q);
    P.NoneOutstanding(s.procs);
    StepMoves(lay, s, a, q);
    if a.LogWrite? {
      LogWriteCounts(lay, s, a.p, a.b, a.data, q);
    } else if t.procs[q].InOp? {
      KeepsCounts(s, t, q);
    }
  }

  lemma StepDistinct(lay: Log.Layout, s: P.State, a: P.Step, p: nat, q: nat)
    requires BlocksInv(s) && P.OpsInv(s) && P.CountInv(s) && P.Enabled(lay, s, a)
    requires p < q < |P.Do(lay, s, a).procs| == |s.procs|
    requires P.Do(lay, s, a).procs[p].InOp? && P.Do(lay, s, a).procs[q].InOp?
    ensures P.Do(lay, s, a).procs[p].op != P.Do(lay, s, a).procs[q].op
  {
    P.NoneOutstanding(s.procs);
    StepMoves(lay, s, a, p);
    StepMoves(lay, s, a, q);
  }

  lemma StepBlocks(lay: Log.Layout, s: P.State, a: P.Step)
    requires BlocksInv(s) && P.OpsInv(s) && P.CountInv(s) && P.Enabled(lay, s, a)
    requires a.Test? ==> |BlocksOf(s, s.procs[a.p].op)| < Log.MAXOPBLOCKS
    ensures BlocksInv(P.Do(lay, s, a))
  {
    var t := P.Do(lay, s, a);
    forall q | 0 <= q < |t.procs| ensures Counts(t, q) {
      StepCounts(lay, s, a, q);
    }
    forall p, q | 0 <= p < q < |t.procs| && t.procs[p].InOp? && t.procs[q].InOp?
      ensures t.procs[p].op != t.procs[q].op
    {
      StepDistinct(lay, s, a, p, q);
    }
  }

  lemma TestPasses(lay: Log.Layout, s: P.State, p: nat)
    requires BlocksInv(s) && P.CountInv(s) && s.disciplined && lay.size >= Log.LOGSIZE + 1
    requires P.Enabled(lay, s, P.Test(p)) && |BlocksOf(s, s.procs[p].op)| < Log.MAXOPBLOCKS
    ensures !P.LogFull(lay, s)
  {
    assert Counts(s, p);
    P.CountUpdate(s.procs, p, P.Idle);
  }

  lemma StepThrifty(lay: Log.Layout, s: P.State, a: P.Step)
    requires BlocksInv(s) && P.OpsInv(s) && P.CountInv(s) && P.Enabled(lay, s, a)
    requires a.Test? ==> |BlocksOf(s, s.procs[a.p].op)| < Log.MAXOPBLOCKS
    requires s.disciplined && lay.size >= Log.LOGSIZE + 1 && !s.phase.Panicked?
    ensures P.Do(lay, s, a).disciplined && !P.Do(lay, s, a).phase.Panicked?
  {
    if a.Test? { TestPasses(lay, s, a.p); }
    if a.LogWrite? { LogWriteCounts(lay, s, a.p, a.b, a.data, a.p); }
  }

  lemma {:induction false} RunThrifty(lay: Log.Layout, d0: Disk, s: P.State, steps: seq<P.Step>, t: P.State)
    requires P.Inv(lay, d0, s) && BlocksInv(s) && s.disciplined && !s.phase.Panicked?
    requires P.Run(lay, s, steps, t) && Thrifty(lay, s, steps) && lay.size >= Log.LOGSIZE + 1
    ensures t.disciplined && !t.phase.Panicked?
    decreases |steps|
  {
    if steps != [] {
      P.StepInv(lay, d0, s, steps[0]);
      StepBlocks(lay, s, steps[0]);
      StepThrifty(lay, s, steps[0]);
      RunThrifty(lay, d0, P.Do(lay, s, steps[0]), steps[1..], t);
    }
  }

  /** log_write never panics if every operation calls it with fewer than MAXOPBLOCKS different blocks logged so far, and
      the log has room for LOGSIZE: blocks that others logged first, and the same block again, do not count against
      an operation. Such are the transactions of filewrite: Adds in Stored. */
  lemma ThriftyNeverPanics(lay: Log.Layout, s: P.State, steps: seq<P.Step>, t: P.State)
    requires P.Init(lay, s) && P.Run(lay, s, steps, t) && Thrifty(lay, s, steps) && lay.size >= Log.LOGSIZE + 1
    ensures !t.phase.Panicked? && t.disciplined && t.fits
  {
    P.InitInv(lay, s);
    RunThrifty(lay, s.disk, s, steps, t);
    P.BudgetFits(lay, s, steps, t);
  }

  // ---------------------------------------------------------------- a transaction as a list of log_writes

  /** The calls of log_write that write ws, one after the other. */
  function LogSteps(p: nat, ws: seq<Log.Write>): seq<P.Step> {
    if ws == [] then [] else [P.Test(p), P.LogWrite(p, ws[0].bno, ws[0].data)] + LogSteps(p, ws[1..])
  }

  /** Process p is in an operation, not in log_write, in a state of a run within all budgets; it has logged blocks of x
      only. */
  ghost predicate MayLog(lay: Log.Layout, d0: Disk, s: P.State, p: nat, x: set<nat>) {
    && P.Inv(lay, d0, s) && BlocksInv(s) && s.disciplined && s.phase.Running? && lay.size >= Log.LOGSIZE + 1
    && p < |s.procs| && s.procs[p].InOp? && !s.procs[p].tested && BlocksOf(s, s.procs[p].op) <= x
  }

  /** t is the state after a call of log_write by p in s, one that does not panic. */
  ghost predicate Calls(lay: Log.Layout, s: P.State, p: nat, w: Log.Write, t: P.State) {
    var a, b := P.Test(p), P.LogWrite(p, w.bno, w.data);
    && P.Enabled(lay, s, a) && |BlocksOf(s, s.procs[p].op)| < Log.MAXOPBLOCKS
    && P.Enabled(lay, P.Do(lay, s, a), b) && t == P.Do(lay, P.Do(lay, s, a), b)
  }

  /** One call. */
  lemma OneWrite(lay: Log.Layout, d0: Disk, s: P.State, p: nat, x: set<nat>, w: Log.Write) returns (t: P.State)
    requires MayLog(lay, d0, s, p, x) && |x| < Log.MAXOPBLOCKS && w.bno < |s.cache| && !lay.InLog(w.bno)
    ensures Calls(lay, s, p, w, t) && t.cache == s.cache[w.bno := w.data] && MayLog(lay, d0, t, p, x + {w.bno})
  {
    Subset(BlocksOf(s, s.procs[p].op), x);
    TestPasses(lay, s, p);
    P.StepInv(lay, d0, s, P.Test(p));
    StepBlocks(lay, s, P.Test(p));
    var u := P.Do(lay, s, P.Test(p));
    assert BlocksOf(u, s.procs[p].op) == BlocksOf(s, s.procs[p].op);
    var a := P.LogWrite(p, w.bno, w.data);
    P.StepInv(lay, d0, u, a);
    StepBlocks(lay, u, a);
    StepThrifty(lay, u, a);
    LogWriteBlocks(lay, u, p, w.bno, w.data, s.procs[p].op);
    t := P.Do(lay, u, a);
  }

  /** ws runs from s to t, each call with fewer than MAXOPBLOCKS blocks logged. */
  ghost predicate GoesThrough(lay: Log.Layout, s: P.State, p: nat, ws: seq<Log.Write>, t: P.State) {
    P.Run(lay, s, LogSteps(p, ws), t) && Thrifty(lay, s, LogSteps(p, ws))
  }

  lemma CallFirst(lay: Log.Layout, s: P.State, p: nat, ws: seq<Log.Write>, u: P.State, t: P.State)
    requires ws != [] && Calls(lay, s, p, ws[0], u) && GoesThrough(lay, u, p, ws[1..], t)
    ensures GoesThrough(lay, s, p, ws, t)
  {
    var a, b, rest := P.Test(p), P.LogWrite(p, ws[0].bno, ws[0].data), LogSteps(p, ws[1..]);
    assert ([a, b] + rest)[1..] == [b] + rest && ([b] + rest)[1..] == rest;
    assert P.Run(lay, P.Do(lay, s, a), [b] + rest, t) && Thrifty(lay, P.Do(lay, s, a), [b] + rest);
  }

  lemma {:induction false} AfterFirst(d: Disk, ws: seq<Log.Write>, d1: Disk, rest: seq<Log.Write>, k: nat, j: nat)
    requires Log.InRange(|d|, ws) && Log.InRange(|d1|, rest) && |ws| == |rest| + 1 && k == j + 1 <= |ws|
    requires d1 == d[ws[0].bno := ws[0].data] && forall i :: 0 <= i < |rest| ==> rest[i] == ws[i + 1]
    ensures Log.After(d, ws, k) == Log.After(d1, rest, j)
  {
    if j > 0 { AfterFirst(d, ws, d1, rest, j, j - 1); }
  }

  /** Calls of log_write go through and write what they should, if all of them but the last are for blocks of x, fewer
      than MAXOPBLOCKS. */
  lemma {:induction false} WritesGoThrough(lay: Log.Layout, d0: Disk, s: P.State, p: nat, ws: seq<Log.Write>,
                                           x: set<nat>)
    returns (t: P.State)
    requires MayLog(lay, d0, s, p, x) && |x| < Log.MAXOPBLOCKS && Log.InRange(|s.cache|, ws)
    requires forall i :: 0 <= i < |ws| ==> !lay.InLog(ws[i].bno) && (i + 1 < |ws| ==> ws[i].bno in x)
    ensures GoesThrough(lay, s, p, ws, t)
    ensures t.cache == Log.After(s.cache, ws, |ws|) && !t.phase.Panicked? && t.disciplined
    decreases |ws|
  {
    if ws == [] {
      t := s;
    } else {
      var u := OneWrite(lay, d0, s, p, x, ws[0]);
      var rest := ws[1..];
      AfterFirst(s.cache, ws, u.cache, rest, |ws|, |rest|);
      if rest == [] {
        t := u;
      } else {
        assert x + {ws[0].bno} == x;
        t := WritesGoThrough(lay, d0, u, p, rest, x);
      }
      CallFirst(lay, s, p, ws, u, t);
    }
  }

  /** A transaction of filewrite, which logs the blocks `log`, the inode's block b last: as a list of calls of log_write
      it is Thrifty, and it goes through, whatever else is in the log. */
  lemma {:induction false} ChunkGoesThrough(lay: Log.Layout, d0: Disk, s: P.State, p: nat, ws: seq<Log.Write>,
                                            log: set<nat>, b: nat)
    returns (t: P.State)
    requires MayLog(lay, d0, s, p, {}) && Adds({}, log, {b}, Log.MAXOPBLOCKS - 1) && Log.InRange(|s.cache|, ws)
    requires forall i :: 0 <= i < |ws| ==> ws[i].bno in log && !lay.InLog(ws[i].bno)
    requires forall i :: 0 <= i < |ws| - 1 ==> ws[i].bno != b
    ensures GoesThrough(lay, s, p, ws, t)
    ensures t.cache == Log.After(s.cache, ws, |ws|) && !t.phase.Panicked? && t.disciplined
  {
    assert Counted(log - {b});
    t := WritesGoThrough(lay, d0, s, p, ws, log - {b});
  }
}
