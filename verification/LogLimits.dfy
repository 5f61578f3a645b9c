/** How large the log on disk must be. begin_op reserves against LOGSIZE, and log_write tests for a full log before
    it takes log.lock. Three operations within their budgets, on a log as mkfs lays it out, show what then happens
    when the log has too few blocks. */
module LogLimits {
  import opened Bytes
  import opened LogDisk
  import opened LogProtocol

  // ---------------------------------------------------------------- three operations

  /** What the operations write. */
  function Mark(): (b: Block)
    ensures b != ZeroBlock()
  {
    var b: Block := ZeroBlock()[0 := 1];
    assert b[0] != ZeroBlock()[0];
    b
  }

  /** A zeroed disk with a log of `size` blocks at block 2, as mkfs lays it out. */
  function Fresh(size: nat): Disk { seq(size + 33, i => ZeroBlock()) }

  /** The first block the operations write; block size + 2 right after the log is nobody's. */
  function Home(size: nat): nat { size + 3 }

  /** Of the blocks logged so far, process p logged every third. */
  function Share(i: nat, p: nat): nat
    requires p < 3
  {
    i / 3 + if p < i % 3 then 1 else 0
  }

  /** Process i % 3 has passed the test of log_write if k is at least 1, and the next one if k is 2. */
  predicate Tested(i: nat, k: nat, p: nat) { (k >= 1 && p == i % 3) || (k >= 2 && p == (i + 1) % 3) }

  ghost predicate Logged(size: nat, s: State, i: nat) {
    && i <= LOGSIZE && |s.cache| == |Fresh(size)| && |s.lh| == i
    && (forall j :: 0 <= j < i ==> s.lh[j] == Home(size) + j)
    && (forall j :: 0 <= j < i ==> s.cache[s.lh[j]] == Mark())
    && (forall j :: 0 <= j < |s.writes| ==> Home(size) <= s.writes[j].bno < |Fresh(size)|)
  }

  /** The operations have logged i blocks in turn, and the k next to log have passed the test. */
  ghost predicate Filled(size: nat, s: State, i: nat, k: nat) {
    && s.phase.Running? && s.disciplined && |s.procs| == 3 && s.disk == Fresh(size)
    && (forall p {:trigger s.procs[p]} :: 0 <= p < 3 ==> s.procs[p] == InOp(p, Share(i, p), Tested(i, k, p)))
    && Logged(size, s, i)
  }

  lemma TestOne(size: nat, s: State, i: nat, k: nat)
    requires Filled(size, s, i, k) && k < 2 && i < LOGSIZE && i < size - 1
    ensures var a := Test((i + k) % 3);
            Enabled(Layout(2, size), s, a) && Filled(size, Do(Layout(2, size), s, a), i, k + 1)
  {
    var p := (i + k) % 3;
    assert s.procs[p] == InOp(p, Share(i, p), Tested(i, k, p));
    var t := Do(Layout(2, size), s, Test(p));
    forall q | 0 <= q < 3 ensures t.procs[q] == InOp(q, Share(i, q), Tested(i, k + 1, q)) {
      assert s.procs[q] == InOp(q, Share(i, q), Tested(i, k, q));
    }
  }

  lemma AppendOne(size: nat, s: State, i: nat, k: nat)
    requires Filled(size, s, i, k) && 1 <= k <= 2 && i < LOGSIZE
    ensures var a := LogWrite(i % 3, Home(size) + i, Mark());
            Enabled(Layout(2, size), s, a) && Filled(size, Do(Layout(2, size), s, a), i + 1, k - 1)
  {
    var p := i % 3;
    assert s.procs[p] == InOp(p, Share(i, p), Tested(i, k, p));
    var t := Do(Layout(2, size), s, LogWrite(p, Home(size) + i, Mark()));
    assert Home(size) + i !in s.lh;
    forall q | 0 <= q < 3 ensures t.procs[q] == InOp(q, Share(i + 1, q), Tested(i + 1, k - 1, q)) {
      assert s.procs[q] == InOp(q, Share(i, q), Tested(i, k, q));
    }
    forall j | 0 <= j < i + 1 ensures t.lh[j] == Home(size) + j && t.cache[t.lh[j]] == Mark() {
      if j < i { assert s.lh[j] == Home(size) + j; }
    }
  }

  // ---------------------------------------------------------------- runs

  /** A run on a log of `size` blocks from the fresh disk. */
  ghost predicate Reaches(size: nat, s: State, steps: seq<Step>, t: State) {
    s.disk == Fresh(size) && Init(Layout(2, size), s) && Run(Layout(2, size), s, steps, t)
  }

  lemma Extend(size: nat, s: State, steps: seq<Step>, t: State, a: Step)
    requires Reaches(size, s, steps, t) && Enabled(Layout(2, size), t, a)
    ensures Reaches(size, s, steps + [a], Do(Layout(2, size), t, a))
  {
    RunAppend(Layout(2, size), s, steps, t, a);
  }

  /** The first j of three processes have begun an operation. */
  ghost predicate Begun(size: nat, s: State, j: nat) {
    && s == State(Fresh(size), Fresh(size), [], s.procs, Running, [], [], 0, j, true, true)
    && |s.procs| == 3 && Outstanding(s.procs) == j
    && forall p :: 0 <= p < 3 ==> s.procs[p] == if p < j then InOp(p, 0, false) else Idle
  }

  lemma BeginOne(size: nat, s: State, j: nat)
    requires Begun(size, s, j) && j < 3
    ensures Enabled(Layout(2, size), s, Begin(j)) && Begun(size, Do(Layout(2, size), s, Begin(j)), j + 1)
  {
    CountUpdate(s.procs, j, InOp(j, 0, false));
  }

  lemma ThreeBegun(size: nat) returns (s: State, steps: seq<Step>, t: State)
    requires 1 <= size <= 0xFFFF_FF00
    ensures Reaches(size, s, steps, t) && Filled(size, t, 0, 0)
  {
    ZeroBlockWord(0);
    s := State(Fresh(size), Fresh(size), [], AllIdle(3), Running, [], [], 0, 0, true, true);
    steps, t := [], s;
    for j := 0 to 3
      invariant Reaches(size, s, steps, t) && Begun(size, t, j)
    {
      BeginOne(size, t, j);
      Extend(size, s, steps, t, Begin(j));
      steps, t := steps + [Begin(j)], Do(Layout(2, size), t, Begin(j));
    }
  }

  /** A run in which the three operations have logged n blocks between them, each process testing and then logging. */
  lemma FilledRun(size: nat, n: nat) returns (s: State, steps: seq<Step>, t: State)
    requires 1 <= size <= 0xFFFF_FF00 && n <= LOGSIZE && n <= size - 1
    ensures Reaches(size, s, steps, t) && Filled(size, t, n, 0)
  {
    s, steps, t := ThreeBegun(size);
    for i := 0 to n
      invariant Reaches(size, s, steps, t) && Filled(size, t, i, 0)
    {
      steps, t := ExtendTest(size, s, steps, t, i, 0);
      steps, t := ExtendAppend(size, s, steps, t, i, 1);
    }
  }

  lemma ExtendTest(size: nat, s: State, steps: seq<Step>, t: State, i: nat, k: nat) returns (more: seq<Step>, u: State)
    requires Reaches(size, s, steps, t) && Filled(size, t, i, k) && k < 2 && i < LOGSIZE && i < size - 1
    ensures Reaches(size, s, more, u) && Filled(size, u, i, k + 1)
  {
    var a := Test((i + k) % 3);
    TestOne(size, t, i, k);
    Extend(size, s, steps, t, a);
    more, u := steps + [a], Do(Layout(2, size), t, a);
  }

  lemma ExtendAppend(size: nat, s: State, steps: seq<Step>, t: State, i: nat, k: nat)
    returns (more: seq<Step>, u: State)
    requires Reaches(size, s, steps, t) && Filled(size, t, i, k) && 1 <= k <= 2 && i < LOGSIZE
    ensures Reaches(size, s, more, u) && Filled(size, u, i + 1, k - 1)
  {
    var a := LogWrite(i % 3, Home(size) + i, Mark());
    AppendOne(size, t, i, k);
    Extend(size, s, steps, t, a);
    more, u := steps + [a], Do(Layout(2, size), t, a);
  }

  // ---------------------------------------------------------------- the panic of log_write

  /** The log mkfs makes has 30 blocks, one of them the header. There three operations that each
      keep to their budget of ten can fill the 29 slots, and the thirtieth block panics. */
  lemma SmallLogPanics(size: nat) returns (s: State, steps: seq<Step>, t: State, p: nat)
    requires 1 <= size <= LOGSIZE
    ensures HasBudget(Layout(2, size), s, steps, t, p) && LogFull(Layout(2, size), t)
  {
    s, steps, t := FilledRun(size, size - 1);
    p := 2;
    assert t.procs[p] == InOp(p, Share(size - 1, p), false);
  }

  /** In a run in which all operations keep to their budget, process p has budget left. */
  ghost predicate HasBudget(lay: Layout, s: State, steps: seq<Step>, t: State, p: nat) {
    && Init(lay, s) && Run(lay, s, steps, t)
    && t.disciplined && p < |t.procs| && t.procs[p].InOp? && t.procs[p].used < MAXOPBLOCKS
  }

  /** Keeping to the budget of begin_op is enough for log_write never to panic exactly when the log on disk has
      LOGSIZE blocks besides its header; mkfs makes it one block smaller. */
  lemma BudgetSufficesIff(size: nat)
    requires 1 <= size <= 0xFFFF_FF00
    ensures (forall s, steps, t, p :: HasBudget(Layout(2, size), s, steps, t, p) ==> !LogFull(Layout(2, size), t))
            <==> size >= LOGSIZE + 1
  {
    if size >= LOGSIZE + 1 {
      forall s, steps, t, p | HasBudget(Layout(2, size), s, steps, t, p) ensures !LogFull(Layout(2, size), t) {
        NoPanicWithBudget(Layout(2, size), s, steps, t, p);
      }
    } else {
      var s, steps, t, p := SmallLogPanics(size);
    }
  }

  /** Even with a large enough log, writing again a block that is already in the log panics once
      the log holds LOGSIZE blocks: the test for a full log comes before absorption. */
  lemma AbsorbedWritePanics(size: nat) returns (s: State, steps: seq<Step>, t: State)
    requires LOGSIZE + 1 <= size <= 0xFFFF_FF00
    ensures Reaches(size, s, steps, t) && t.disciplined && t.lh != []
    ensures forall p :: 0 <= p < |t.procs| ==>
      Enabled(Layout(2, size), t, Test(p)) && Do(Layout(2, size), t, Test(p)).phase.Panicked?
  {
    s, steps, t := FilledRun(size, LOGSIZE);
    assert t.lh[0] == size + 3;
  }

  // ---------------------------------------------------------------- the race of two log_writes

  /** Two processes test the log when one slot is left. */
  lemma BothTested(size: nat) returns (s: State, steps: seq<Step>, t: State)
    requires 2 <= size <= LOGSIZE
    ensures Reaches(size, s, steps, t) && Filled(size, t, size - 2, 2)
  {
    s, steps, t := FilledRun(size, size - 2);
    steps, t := ExtendTest(size, s, steps, t, size - 2, 0);
    steps, t := ExtendTest(size, s, steps, t, size - 2, 1);
  }

  /** Both then take it. */
  lemma Race(size: nat) returns (s: State, steps: seq<Step>, t: State)
    requires 2 <= size <= LOGSIZE
    ensures Reaches(size, s, steps, t) && Filled(size, t, size, 0)
  {
    s, steps, t := BothTested(size);
    steps, t := ExtendAppend(size, s, steps, t, size - 2, 2);
    steps, t := ExtendAppend(size, s, steps, t, size - 1, 1);
  }

  /** With a log that is its header alone, no process ever passes the test. */
  ghost predicate NeverLogged(s: State) {
    s.fits && s.lh == [] && forall p :: 0 <= p < |s.procs| && s.procs[p].InOp? ==> !s.procs[p].tested
  }

  lemma HeaderOnlyStep(s: State, a: Step, size: nat)
    requires NeverLogged(s) && Enabled(Layout(2, size), s, a) && size <= 1
    ensures NeverLogged(Do(Layout(2, size), s, a))
  {
  }

  lemma {:induction false} HeaderOnlyLog(s: State, steps: seq<Step>, t: State, size: nat)
    requires NeverLogged(s) && Run(Layout(2, size), s, steps, t) && size <= 1
    ensures NeverLogged(t)
    decreases |steps|
  {
    if steps != [] {
      HeaderOnlyStep(s, steps[0], size);
      HeaderOnlyLog(Do(Layout(2, size), s, steps[0]), steps[1..], t, size);
    }
  }

  ghost predicate WithinBudget(lay: Layout, s: State, steps: seq<Step>, t: State) {
    Init(lay, s) && Run(lay, s, steps, t) && t.disciplined
  }

  /** While all operations keep to their budgets the header names no more blocks than the log has slots for, exactly
      when the log has LOGSIZE blocks besides its header, or none. */
  lemma RoomIff(size: nat)
    requires 1 <= size <= 0xFFFF_FF00
    ensures (forall s, steps, t :: WithinBudget(Layout(2, size), s, steps, t) ==> Room(Layout(2, size), t.lh))
            <==> size >= LOGSIZE + 1 || size == 1
  {
    if 2 <= size <= LOGSIZE {
      var s, steps, t := Race(size);
      assert WithinBudget(Layout(2, size), s, steps, t) && !Room(Layout(2, size), t.lh);
    } else {
      forall s, steps, t | WithinBudget(Layout(2, size), s, steps, t) ensures Room(Layout(2, size), t.lh) {
        if size == 1 { HeaderOnlyLog(s, steps, t, size); } else { BudgetFits(Layout(2, size), s, steps, t); }
      }
    }
  }

  // ---------------------------------------------------------------- what the race does to the disk

  /** After i of the operations have ended. */
  ghost predicate Ending(size: nat, s: State, i: nat) {
    && s.disciplined && |s.procs| == 3 && s.disk == Fresh(size) && Logged(size, s, size)
    && (if i < 3 then s.phase.Running? && Outstanding(s.procs) == 3 - i else s.phase == Committing(s.disk, 0))
    && forall p {:trigger s.procs[p]} :: i <= p < 3 ==> s.procs[p].InOp? && !s.procs[p].tested
  }

  lemma AllOutstanding(size: nat, s: State)
    requires Filled(size, s, size, 0)
    ensures Ending(size, s, 0)
  {
    assert s.procs[0].InOp? && s.procs[1].InOp? && s.procs[2].InOp?;
    assert s.procs == [s.procs[0], s.procs[1], s.procs[2]];
    assert Outstanding([s.procs[2]]) == 1;
    assert Outstanding([s.procs[1], s.procs[2]]) == 2;
  }

  lemma EndOne(size: nat, s: State, i: nat)
    requires Ending(size, s, i) && i < 3
    ensures Enabled(Layout(2, size), s, End(i)) && Ending(size, Do(Layout(2, size), s, End(i)), i + 1)
  {
    assert s.procs[i].InOp?;
    CountUpdate(s.procs, i, Idle);
  }

  /** The commit of an overfull log, after k of its writes. */
  ghost predicate Overfull(size: nat, s: State, k: nat) {
    && Logged(size, s, size) && s.disciplined && 2 <= size <= LOGSIZE && k <= size
    && Loggable(Layout(2, size), |Fresh(size)|, s.lh) && s.phase == Committing(Fresh(size), k)
    && s.disk == After(Fresh(size), Commits(Layout(2, size), Fresh(size), s.lh, s.cache), k)
  }

  lemma CommitOne(size: nat, s: State, k: nat)
    requires Overfull(size, s, k) && k < size
    ensures Enabled(Layout(2, size), s, CommitWrite) && Overfull(size, Advanced(Layout(2, size), s), k + 1)
  {
    var t := Advanced(Layout(2, size), s);
    assert t.lh == s.lh && t.cache == s.cache && t.writes == s.writes;
  }

  lemma OverfullCommit(size: nat) returns (s: State, steps: seq<Step>, t: State)
    requires 2 <= size <= LOGSIZE
    ensures Reaches(size, s, steps, t) && Overfull(size, t, size)
  {
    s, steps, t := Race(size);
    AllOutstanding(size, t);
    for i := 0 to 3
      invariant Reaches(size, s, steps, t) && Ending(size, t, i)
    {
      EndOne(size, t, i);
      Extend(size, s, steps, t, End(i));
      steps, t := steps + [End(i)], Do(Layout(2, size), t, End(i));
    }
    for k := 0 to size
      invariant Reaches(size, s, steps, t) && Overfull(size, t, k)
    {
      CommitOne(size, t, k);
      Extend(size, s, steps, t, CommitWrite);
      steps, t := steps + [CommitWrite], Advanced(Layout(2, size), t);
    }
  }

  /** A crash now leaves some first part of the logged writes on the disk's home blocks. */
  ghost predicate CrashSafe(lay: Layout, d0: Disk, t: State) {
    && InRange(|d0|, t.writes) && |t.disk| == |d0| && WellFormed(lay, t.disk)
    && exists n :: 0 <= n <= |t.writes| && SameHome(lay, Logical(lay, t.disk), After(d0, t.writes, n))
  }

  /** The last log slot of an overfull log is the block after the log. It gets data that nobody wrote to it. */
  lemma OverfullIsUnsafe(size: nat, s: State)
    requires Overfull(size, s, size)
    ensures !CrashSafe(Layout(2, size), Fresh(size), s)
  {
    var lay, d := Layout(2, size), Fresh(size);
    var ws := LogPart(lay, s.lh, s.cache);
    AfterPrefix(d, Commits(lay, d, s.lh, s.cache), ws, size);
    LogSlotFilled(lay, d, s.lh, s.cache, ws, size, size - 1);
    assert s.lh[size - 1] == Home(size) + size - 1;
    assert s.disk[size + 2] == Mark();
    Untouched(d, ws, size, 2);
    ZeroBlockWord(0);
    if CrashSafe(lay, d, s) {
      NoHeaderMeaning(lay, s.disk);
      var n :| 0 <= n <= |s.writes| && SameHome(lay, Logical(lay, s.disk), After(d, s.writes, n));
      Untouched(d, s.writes, n, size + 2);
    }
  }

  /** Every within-budget run is crash safe exactly when the log has LOGSIZE blocks besides its header, or none: with
      any size between, the race lets commit overwrite the block after the log before anything is committed. */
  lemma CrashSafetyIff(size: nat)
    requires 1 <= size <= 0xFFFF_FF00
    ensures (forall s, steps, t :: WithinBudget(Layout(2, size), s, steps, t) ==> CrashSafe(Layout(2, size), s.disk, t))
            <==> size >= LOGSIZE + 1 || size == 1
  {
    var lay := Layout(2, size);
    if 2 <= size <= LOGSIZE {
      var s, steps, t := OverfullCommit(size);
      OverfullIsUnsafe(size, t);
      assert WithinBudget(lay, s, steps, t) && !CrashSafe(lay, s.disk, t);
    } else {
      forall s, steps, t | WithinBudget(lay, s, steps, t) ensures CrashSafe(lay, s.disk, t) {
        if size == 1 { HeaderOnlyLog(s, steps, t, size); }
        CrashExplained(lay, s, steps, t);
      }
    }
  }

  lemma CrashExplained(lay: Layout, s: State, steps: seq<Step>, t: State)
    requires WithinBudget(lay, s, steps, t) && (t.fits || lay.size >= LOGSIZE + 1)
    ensures CrashSafe(lay, s.disk, t)
  {
    InitInv(lay, s);
    RunInv(lay, s.disk, s, steps, t);
    CrashMeaning(lay, s.disk, t);
  }
}
