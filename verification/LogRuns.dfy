/** What the log can always do: end its operations, commit and recover, up to a state in which everything logged is
    durable and a new operation is admitted. */
module LogRuns {
  import opened Bytes
  import opened LogDisk
  import opened LogProtocol

  /** A run from s to t without a crash, by which nothing is logged or lost. */
  ghost predicate Leads(lay: Layout, s: State, steps: seq<Step>, t: State) {
    && Run(lay, s, steps, t) && (forall i :: 0 <= i < |steps| ==> steps[i] != Crash)
    && t.writes == s.writes && t.fits == s.fits && |t.procs| == |s.procs|
  }

  lemma LeadsNowhere(lay: Layout, s: State)
    ensures Leads(lay, s, [], s)
  {
  }

  /** A step and then a run. */
  lemma LeadsOn(lay: Layout, s: State, a: Step, steps: seq<Step>, t: State)
    requires Enabled(lay, s, a) && a != Crash && Leads(lay, Do(lay, s, a), steps, t)
    requires Do(lay, s, a).writes == s.writes && Do(lay, s, a).fits == s.fits && |Do(lay, s, a).procs| == |s.procs|
    ensures Leads(lay, s, [a] + steps, t)
  {
    assert ([a] + steps)[1..] == steps;
  }

  lemma {:induction false} LeadsBoth(lay: Layout, s: State, steps: seq<Step>, u: State, more: seq<Step>, t: State)
    requires Leads(lay, s, steps, u) && Leads(lay, u, more, t)
    ensures Leads(lay, s, steps + more, t)
  {
    RunBoth(lay, s, steps, u, more, t);
  }

  lemma {:induction false} RunBoth(lay: Layout, s: State, steps: seq<Step>, u: State, more: seq<Step>, t: State)
    requires Run(lay, s, steps, u) && Run(lay, u, more, t)
    ensures Run(lay, s, steps + more, t)
    decreases |steps|
  {
    if steps == [] {
      assert steps + more == more;
    } else {
      var s1, rest := Do(lay, s, steps[0]), steps[1..];
      RunBoth(lay, s1, rest, u, more, t);
      assert (steps + more)[1..] == rest + more && (steps + more)[0] == steps[0];
    }
  }

  /** No operation, commit or recovery is in progress, the log is empty, everything logged is durable, and nobody
      waits. */
  ghost predicate AtRest(s: State) {
    && s.phase.Running? && s.lh == [] && s.cut == |s.writes|
    && forall p :: 0 <= p < |s.procs| ==> s.procs[p].Idle?
  }

  // ---------------------------------------------------------------- commit and recovery

  /** A commit that has begun can be completed. */
  lemma {:induction false} CommitCompletes(lay: Layout, d0: Disk, s: State) returns (steps: seq<Step>, t: State)
    requires Inv(lay, d0, s) && s.fits && s.phase.Committing?
    ensures Leads(lay, s, steps, t) && Inv(lay, d0, t) && AtRest(t)
    decreases |Commits(lay, s.phase.base, s.lh, s.cache)| - s.phase.k
  {
    if s.phase.k < |Commits(lay, s.phase.base, s.lh, s.cache)| {
      var u := Do(lay, s, CommitWrite);
      StepInv(lay, d0, s, CommitWrite);
      steps, t := CommitCompletes(lay, d0, u);
      LeadsOn(lay, s, CommitWrite, steps, t);
      steps := [CommitWrite] + steps;
    } else {
      t := Do(lay, s, CommitDone);
      StepInv(lay, d0, s, CommitDone);
      LeadsNowhere(lay, t);
      LeadsOn(lay, s, CommitDone, [], t);
      steps := [CommitDone];
      assert [CommitDone] + [] == [CommitDone];
      NobodyIn(lay, s, t);
    }
  }

  lemma NobodyIn(lay: Layout, s: State, t: State)
    requires CountInv(s) && s.phase.Committing? && Enabled(lay, s, CommitDone) && t == Do(lay, s, CommitDone)
    requires s.lh == [] ==> s.cut == |s.writes|
    requires s.lh != [] ==> s.phase.k > |s.lh|
    ensures AtRest(t)
  {
    NoneOutstanding(s.procs);
  }

  /** So can a recovery. */
  lemma {:induction false} RecoveryCompletes(lay: Layout, d0: Disk, s: State) returns (steps: seq<Step>, t: State)
    requires Inv(lay, d0, s) && s.fits && s.phase.Recovering?
    ensures Leads(lay, s, steps, t) && Inv(lay, d0, t) && AtRest(t)
    decreases |RecoverWrites(lay, s.phase.base)| - s.phase.k
  {
    if s.phase.k < |RecoverWrites(lay, s.phase.base)| {
      var u := Do(lay, s, RecoverWrite);
      StepInv(lay, d0, s, RecoverWrite);
      steps, t := RecoveryCompletes(lay, d0, u);
      LeadsOn(lay, s, RecoverWrite, steps, t);
      steps := [RecoverWrite] + steps;
    } else {
      t := Do(lay, s, RecoverDone);
      StepInv(lay, d0, s, RecoverDone);
      LeadsNowhere(lay, t);
      LeadsOn(lay, s, RecoverDone, [], t);
      steps := [RecoverDone];
      assert [RecoverDone] + [] == [RecoverDone];
    }
  }

  // ---------------------------------------------------------------- ending operations

  lemma {:induction false} Somebody(procs: seq<Proc>) returns (p: nat)
    requires Outstanding(procs) > 0
    ensures p < |procs| && procs[p].InOp?
  {
    if procs[0].InOp? {
      p := 0;
    } else {
      var q := Somebody(procs[1..]);
      p := q + 1;
    }
  }

  /** Nobody is between the test of log_write and the section under the lock. */
  ghost predicate NoneTested(s: State) {
    forall p :: 0 <= p < |s.procs| && s.procs[p].InOp? ==> !s.procs[p].tested
  }

  /** When operations end, one after the other, the last one's end starts a commit. */
  lemma {:induction false} OperationsEnd(lay: Layout, d0: Disk, s: State) returns (steps: seq<Step>, t: State)
    requires Inv(lay, d0, s) && s.fits && s.phase.Running? && Outstanding(s.procs) > 0 && NoneTested(s)
    ensures Leads(lay, s, steps, t) && Inv(lay, d0, t) && t.phase.Committing?
    decreases Outstanding(s.procs)
  {
    var p := Somebody(s.procs);
    var u := OneEnds(lay, s, p);
    StepInv(lay, d0, s, End(p));
    if u.phase.Committing? {
      LeadsNowhere(lay, u);
      steps, t := [], u;
    } else {
      steps, t := OperationsEnd(lay, d0, u);
    }
    LeadsOn(lay, s, End(p), steps, t);
    steps := [End(p)] + steps;
  }

  lemma OneEnds(lay: Layout, s: State, p: nat) returns (u: State)
    requires s.phase.Running? && NoneTested(s) && p < |s.procs| && s.procs[p].InOp?
    ensures Enabled(lay, s, End(p)) && u == Do(lay, s, End(p)) && u.writes == s.writes && u.fits == s.fits
    ensures |u.procs| == |s.procs| && NoneTested(u) && Outstanding(u.procs) == Outstanding(s.procs) - 1
    ensures if Outstanding(u.procs) == 0 then u.phase.Committing? else u.phase.Running?
  {
    CountUpdate(s.procs, p, Idle);
    u := Do(lay, s, End(p));
  }

  /** With no operation in progress nobody sleeps in begin_op. */
  lemma AlreadyAtRest(s: State)
    requires CountInv(s) && s.phase.Running? && Outstanding(s.procs) == 0
    ensures AtRest(s)
  {
    NoneOutstanding(s.procs);
    forall p | 0 <= p < |s.procs| ensures s.procs[p].Idle? {
      assert !s.procs[p].InOp?;
    }
  }

  lemma ComesToRest(lay: Layout, d0: Disk, s: State) returns (steps: seq<Step>, t: State)
    requires Inv(lay, d0, s) && s.fits && !s.phase.Panicked? && NoneTested(s)
    ensures Leads(lay, s, steps, t) && Inv(lay, d0, t) && AtRest(t)
  {
    if s.phase.Recovering? {
      steps, t := RecoveryCompletes(lay, d0, s);
    } else if s.phase.Committing? {
      steps, t := CommitCompletes(lay, d0, s);
    } else if Outstanding(s.procs) == 0 {
      AlreadyAtRest(s);
      LeadsNowhere(lay, s);
      steps, t := [], s;
    } else {
      var first, u := OperationsEnd(lay, d0, s);
      var rest;
      rest, t := CommitCompletes(lay, d0, u);
      LeadsBoth(lay, s, first, u, rest, t);
      steps := first + rest;
    }
  }

  lemma RestMeans(lay: Layout, d0: Disk, t: State)
    requires Inv(lay, d0, t) && AtRest(t) && t.fits
    ensures InRange(|d0|, t.writes) && SameHome(lay, t.disk, After(d0, t.writes, |t.writes|))
    ensures SameHome(lay, t.cache, After(d0, t.writes, |t.writes|))
    ensures forall p :: 0 <= p < |t.procs| ==> Enabled(lay, t, Begin(p))
  {
    NoneOutstanding(t.procs);
  }

  /** From every state of every run in which the header has had room for its blocks, without a panic and with no
      log_write under way, the operations can end, and a commit or recovery complete, so that everything logged is
      durable, the home blocks on disk are those of the cache, and whoever waited can begin. */
  lemma AlwaysAtRestAgain(lay: Layout, s0: State, steps0: seq<Step>, s: State) returns (steps: seq<Step>, t: State)
    requires Init(lay, s0) && Run(lay, s0, steps0, s) && s.fits && !s.phase.Panicked? && NoneTested(s)
    ensures Leads(lay, s, steps, t) && AtRest(t) && InRange(|s0.disk|, s.writes)
    ensures SameHome(lay, t.disk, After(s0.disk, s.writes, |s.writes|))
    ensures SameHome(lay, t.cache, After(s0.disk, s.writes, |s.writes|))
    ensures forall p :: 0 <= p < |t.procs| ==> Enabled(lay, t, Begin(p))
  {
    InitInv(lay, s0);
    RunInv(lay, s0.disk, s0, steps0, s);
    steps, t := ComesToRest(lay, s0.disk, s);
    RestMeans(lay, s0.disk, t);
  }
}
