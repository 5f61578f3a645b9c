/** What becomes of a process over the steps of a run: how long it sleeps, when the scheduler takes it up, what fork
    makes and how long a dead child is kept. */
module ProcessRuns {
  import opened ProcessTable

  // ---------------------------------------------------------------- sleep and wakeup

  predicate Asleep(s: Sys, q: nat, ch: Chan) {
    q < |s.procs| && s.procs[q].state == SLEEPING && s.procs[q].chan == ch
  }

  /** The step wakes process q, asleep on this channel: somebody kills q, wakes the channel, or exits and so wakes its
      parent, or init, in wait. */
  predicate Wakes(s: Sys, t: Step, q: nat, ch: Chan) {
    || t == Kill(q) || t == Wakeup(ch)
    || (t.Exit? && Calls(s, t.c) && ExitWakes(s.procs, s.cpus[t.c].proc, s.init, ch))
  }

  /** The steps of fork leave sleeping and dead processes alone. */
  lemma ForkPasses(s: Sys, t: Step, q: nat)
    requires Inv(s) && Enabled(s, t) && (t.Alloc? || t.AllocFail? || t.Link? || t.Launch?)
    requires q < |s.procs| && s.procs[q].state in {SLEEPING, ZOMBIE}
    ensures |Apply(s, t).procs| == |s.procs| && Apply(s, t).procs[q] == s.procs[q]
  {
    assert CpuOk(s, t.c);
    assert ProcOk(s, s.cpus[t.c].proc);
  }

  /** So do the steps of processes on a CPU, and of the scheduler, but for the dead child that wait takes away. */
  lemma CpuPasses(s: Sys, t: Step, q: nat)
    requires Inv(s) && Enabled(s, t) && !(t.Alloc? || t.AllocFail? || t.Link? || t.Launch?)
    requires !(t.Exit? || t.Wakeup? || t.Kill? || (t.WaitReap? && t.z == q))
    requires q < |s.procs| && s.procs[q].state in {SLEEPING, ZOMBIE}
    ensures |Apply(s, t).procs| == |s.procs| && Apply(s, t).procs[q] == s.procs[q]
  {
    assert CpuOk(s, t.c);
  }

  /** A sleeper is woken by those steps and by no others, and keeps its channel. */
  lemma StepAsleep(s: Sys, t: Step, q: nat, ch: Chan)
    requires Inv(s) && Enabled(s, t) && Asleep(s, q, ch)
    ensures |Apply(s, t).procs| == |s.procs|
    ensures var x := Apply(s, t).procs[q];
      x.state == (if Wakes(s, t, q, ch) then RUNNABLE else SLEEPING) && x.chan == ch && x.at == s.procs[q].at
  {
    if t.Exit? {
      assert CpuOk(s, t.c);
      ExitedAt(s.procs, s.cpus[t.c].proc, s.init, q);
    } else if t.Alloc? || t.AllocFail? || t.Link? || t.Launch? {
      ForkPasses(s, t, q);
    } else if !t.Wakeup? && !t.Kill? {
      CpuPasses(s, t, q);
    }
  }

  ghost predicate NoneWakes(s: Sys, ts: seq<Step>, q: nat, ch: Chan)
    requires AllEnabled(s, ts)
    decreases |ts|
  {
    ts == [] || (!Wakes(s, ts[0], q, ch) && NoneWakes(Apply(s, ts[0]), ts[1..], q, ch))
  }

  lemma {:induction false} StaysAsleep(s: Sys, ts: seq<Step>, q: nat, ch: Chan)
    requires Inv(s) && AllEnabled(s, ts) && Asleep(s, q, ch) && NoneWakes(s, ts, q, ch)
    ensures Inv(Run(s, ts)) && Asleep(Run(s, ts), q, ch)
    decreases |ts|
  {
    if ts != [] {
      StepKeeps(s, ts[0]);
      StepAsleep(s, ts[0], q, ch);
      StaysAsleep(Apply(s, ts[0]), ts[1..], q, ch);
    }
  }

  /** Only a wakeup of the channel and a kill wake a process that sleeps on something other than a process. */
  lemma {:induction false} NobodyElse(s: Sys, ts: seq<Step>, q: nat, n: nat)
    requires AllEnabled(s, ts) && forall i :: 0 <= i < |ts| ==> ts[i] != Wakeup(OnOther(n)) && ts[i] != Kill(q)
    ensures NoneWakes(s, ts, q, OnOther(n))
    decreases |ts|
  {
    if ts != [] {
      forall i | 0 <= i < |ts[1..]| ensures ts[1..][i] != Wakeup(OnOther(n)) && ts[1..][i] != Kill(q) {
        assert ts[1..][i] == ts[i + 1];
      }
      NobodyElse(Apply(s, ts[0]), ts[1..], q, n);
    }
  }

  /** A process that goes to sleep on n sleeps through every run up to the first wakeup of n, or kill of it, and is
      runnable after that; no other wakeup wakes it. */
  lemma SleepsUntilWoken(s: Sys, c: nat, n: nat, ts: seq<Step>, t: Step)
    requires Inv(s) && Enabled(s, Sleep(c, n)) && AllEnabled(Apply(s, Sleep(c, n)), ts)
    requires Enabled(Run(Apply(s, Sleep(c, n)), ts), t)
    requires forall i :: 0 <= i < |ts| ==> ts[i] != Wakeup(OnOther(n)) && ts[i] != Kill(s.cpus[c].proc)
    ensures var q, u := s.cpus[c].proc, Run(Apply(s, Sleep(c, n)), ts);
      && Asleep(u, q, OnOther(n)) && |Apply(u, t).procs| == |u.procs|
      && Apply(u, t).procs[q].state == if t == Wakeup(OnOther(n)) || t == Kill(q) then RUNNABLE else SLEEPING
  {
    var q, u := s.cpus[c].proc, Apply(s, Sleep(c, n));
    StepKeeps(s, Sleep(c, n));
    NobodyElse(u, ts, q, n);
    StaysAsleep(u, ts, q, OnOther(n));
    StepAsleep(Run(u, ts), t, q, OnOther(n));
  }

  /** A process that goes to sleep in wait sleeps until a child exits, init gets a dead child and the process is init,
      or it is woken or killed. */
  lemma WaitsUntilWoken(s: Sys, c: nat, ts: seq<Step>, t: Step)
    requires Inv(s) && Enabled(s, WaitSleep(c)) && AllEnabled(Apply(s, WaitSleep(c)), ts)
    requires NoneWakes(Apply(s, WaitSleep(c)), ts, s.cpus[c].proc, OnProc(s.cpus[c].proc))
    requires Enabled(Run(Apply(s, WaitSleep(c)), ts), t)
    ensures var q, u := s.cpus[c].proc, Run(Apply(s, WaitSleep(c)), ts);
      && Asleep(u, q, OnProc(q)) && |Apply(u, t).procs| == |u.procs|
      && Apply(u, t).procs[q].state == if Wakes(u, t, q, OnProc(q)) then RUNNABLE else SLEEPING
  {
    var q, u := s.cpus[c].proc, Apply(s, WaitSleep(c));
    StepKeeps(s, WaitSleep(c));
    StaysAsleep(u, ts, q, OnProc(q));
    StepAsleep(Run(u, ts), t, q, OnProc(q));
  }

  // ---------------------------------------------------------------- the scheduler

  /** Slot i is the first from k on with a runnable process. */
  predicate FirstRunnable(s: Sys, k: nat, i: nat) {
    && k <= i < |s.procs| && s.procs[i].state == RUNNABLE
    && forall j :: k <= j < i ==> s.procs[j].state != RUNNABLE
  }

  /** These steps are the scheduler's on CPU c. */
  predicate OfScheduler(ts: seq<Step>, c: nat) {
    forall i :: 0 <= i < |ts| ==> ts[i] in {SchedEnter(c), SchedSkip(c), SchedLeave(c), SchedPick(c), SchedRun(c)}
  }

  /** The scheduler of CPU c, at slot k, skips up to slot i. */
  lemma {:induction false} SkipsTo(s: Sys, c: nat, k: nat, i: nat) returns (ts: seq<Step>)
    requires c < |s.cpus| && s.lock == c && s.cpus[c] == Cpu(-1, Scan(k)) && k <= i <= |s.procs|
    requires forall j :: k <= j < i ==> s.procs[j].state != RUNNABLE
    ensures AllEnabled(s, ts) && OfScheduler(ts, c)
    ensures Run(s, ts) == s.(cpus := s.cpus[c := Cpu(-1, Scan(i))])
    decreases i - k
  {
    if k == i {
      ts := [];
      assert s.cpus[c := Cpu(-1, Scan(i))] == s.cpus;
    } else {
      var u := Apply(s, SchedSkip(c));
      RunOne(s, SchedSkip(c));
      var us := SkipsTo(u, c, k + 1, i);
      RunBoth(s, [SchedSkip(c)], us);
      ts := [SchedSkip(c)] + us;
      assert u.cpus[c := Cpu(-1, Scan(i))] == s.cpus[c := Cpu(-1, Scan(i))];
    }
  }

  /** Process i now runs on CPU c, which holds the lock. */
  function Taken(s: Sys, c: nat, i: nat): Sys
    requires c < |s.cpus| && i < |s.procs|
  {
    s.(procs := s.procs[i := s.procs[i].(state := RUNNING)], cpus := s.cpus[c := Cpu(i, Resumed)], lock := c)
  }

  /** From slot k on, the scheduler runs the first runnable process, and changes nothing else. */
  lemma RunsFirst(s: Sys, c: nat, k: nat, i: nat) returns (ts: seq<Step>)
    requires c < |s.cpus| && s.lock == c && s.cpus[c] == Cpu(-1, Scan(k)) && FirstRunnable(s, k, i)
    ensures AllEnabled(s, ts) && OfScheduler(ts, c)
    ensures Run(s, ts) == Taken(s, c, i)
  {
    var us := SkipsTo(s, c, k, i);
    var u := Run(s, us);
    RunTwo(u, SchedPick(c), SchedRun(c));
    RunBoth(s, us, [SchedPick(c), SchedRun(c)]);
    ts := us + [SchedPick(c), SchedRun(c)];
    assert Run(s, ts).cpus == s.cpus[c := Cpu(i, Resumed)];
  }

  /** An idle CPU, with the lock free, takes up the first runnable process of the table by its own steps. */
  lemma TakesUp(s: Sys, c: nat, i: nat) returns (ts: seq<Step>)
    requires Inv(s) && c < |s.cpus| && s.lock == -1 && s.cpus[c].ctl == Idle && FirstRunnable(s, 0, i)
    ensures AllEnabled(s, ts) && OfScheduler(ts, c)
    ensures Run(s, ts) == Taken(s, c, i)
  {
    RunOne(s, SchedEnter(c));
    var u := Apply(s, SchedEnter(c));
    var us := RunsFirst(u, c, 0, i);
    RunBoth(s, [SchedEnter(c)], us);
    ts := [SchedEnter(c)] + us;
    assert u.cpus[c := Cpu(i, Resumed)] == s.cpus[c := Cpu(i, Resumed)];
  }

  /** If nobody is runnable it gives the lock back and is where it was. */
  lemma FindsNobody(s: Sys, c: nat) returns (ts: seq<Step>)
    requires Inv(s) && c < |s.cpus| && s.lock == -1 && s.cpus[c].ctl == Idle
    requires forall j :: 0 <= j < |s.procs| ==> s.procs[j].state != RUNNABLE
    ensures AllEnabled(s, ts) && OfScheduler(ts, c) && ts != [] && Run(s, ts) == s
  {
    assert CpuOk(s, c);
    RunOne(s, SchedEnter(c));
    var u := Apply(s, SchedEnter(c));
    var us := SkipsTo(u, c, 0, |s.procs|);
    RunBoth(s, [SchedEnter(c)], us);
    var v := Run(u, us);
    RunOne(v, SchedLeave(c));
    RunBoth(s, [SchedEnter(c)] + us, [SchedLeave(c)]);
    ts := [SchedEnter(c)] + us + [SchedLeave(c)];
    assert Apply(v, SchedLeave(c)).cpus == s.cpus;
  }

  /** A process that gives up its CPU, by yield, sleep or exit, is passed over until the table has been gone through:
      the scan goes on behind it. */
  lemma GoesOnBehind(s: Sys, t: Step, i: nat) returns (ts: seq<Step>)
    requires Inv(s) && Enabled(s, t) && (t.Yield? || t.Sleep? || t.Exit? || t.WaitSleep?)
    requires FirstRunnable(Apply(s, t), s.cpus[t.c].proc + 1, i)
    ensures AllEnabled(Apply(s, t), [SchedBack(t.c)] + ts) && OfScheduler(ts, t.c)
    ensures Run(Apply(s, t), [SchedBack(t.c)] + ts) == Taken(Apply(s, t), t.c, i)
  {
    var u, c := Apply(s, t), t.c;
    StepKeeps(s, t);
    assert CpuOk(u, c);
    RunOne(u, SchedBack(c));
    var v := Apply(u, SchedBack(c));
    ts := RunsFirst(v, c, s.cpus[c].proc + 1, i);
    RunBoth(u, [SchedBack(c)], ts);
    assert v.cpus[c := Cpu(i, Resumed)] == u.cpus[c := Cpu(i, Resumed)];
  }

  // ---------------------------------------------------------------- fork, exit and wait

  /** A slot with its new owner. */
  function Child(s: Sys, np: nat, q: int): Sys
    requires np < |s.procs|
  {
    s.(procs := s.procs[np := s.procs[np].(state := RUNNABLE, parent := q, at := InForkret)])
  }

  lemma ForkFills(s: Sys, c: nat, np: nat, q: nat) returns (u: Sys)
    requires Inv(s) && Enabled(s, Alloc(c, np)) && q == s.cpus[c].proc
    ensures AllEnabled(s, [Alloc(c, np), Link(c)]) && u == Run(s, [Alloc(c, np), Link(c)])
    ensures q != np && |u.procs| == |s.procs| && u == s.(procs := u.procs)
    ensures u.procs ==
      s.procs[np := s.procs[np].(state := EMBRYO, parent := q)][q := s.procs[q].(fork := Forking(np, true))]
  {
    assert CpuOk(s, c) && ProcOk(s, q);
    RunTwo(s, Alloc(c, np), Link(c));
    u := Apply(Apply(s, Alloc(c, np)), Link(c));
  }

  /** fork: a runnable child of the caller in the slot it found, and nothing else has changed. */
  lemma ForkMakes(s: Sys, c: nat, np: nat)
    requires Inv(s) && Enabled(s, Alloc(c, np))
    ensures AllEnabled(s, [Alloc(c, np), Link(c)] + [Launch(c)])
    ensures Run(s, [Alloc(c, np), Link(c)] + [Launch(c)]) == Child(s, np, s.cpus[c].proc)
  {
    var q := s.cpus[c].proc;
    var u := ForkFills(s, c, np, q);
    RunOne(u, Launch(c));
    RunBoth(s, [Alloc(c, np), Link(c)], [Launch(c)]);
    assert Apply(u, Launch(c)).procs == Child(s, np, q).procs;
  }

  /** A fork that finds no memory leaves the table as it was. */
  lemma ForkFails(s: Sys, c: nat, np: nat)
    requires Inv(s) && Enabled(s, Alloc(c, np))
    ensures AllEnabled(s, [Alloc(c, np), AllocFail(c)]) && Run(s, [Alloc(c, np), AllocFail(c)]) == s
  {
    var q := s.cpus[c].proc;
    assert CpuOk(s, c) && ProcOk(s, q);
    RunTwo(s, Alloc(c, np), AllocFail(c));
    assert Apply(Apply(s, Alloc(c, np)), AllocFail(c)).procs == s.procs;
  }

  /** A step leaves a dead process dead unless it is the parent's wait that takes it away. */
  lemma StepZombie(s: Sys, t: Step, z: nat)
    requires Inv(s) && Enabled(s, t) && z < |s.procs| && s.procs[z].state == ZOMBIE
    ensures |Apply(s, t).procs| == |s.procs|
    ensures var x := Apply(s, t).procs[z];
      if t.WaitReap? && t.z == z then x == CLEARED && s.procs[z].parent == s.cpus[t.c].proc
      else x.state == ZOMBIE
           && x.parent == if t.Exit? && s.procs[z].parent == s.cpus[t.c].proc then s.init else s.procs[z].parent
  {
    if t.Exit? {
      assert CpuOk(s, t.c);
      ExitedAt(s.procs, s.cpus[t.c].proc, s.init, z);
    } else if t.Alloc? || t.AllocFail? || t.Link? || t.Launch? {
      ForkPasses(s, t, z);
    } else if !t.Wakeup? && !t.Kill? && !(t.WaitReap? && t.z == z) {
      CpuPasses(s, t, z);
    }
  }

  /** A process that exits stays in the table, dead, in every run until its parent, or init after the parent, waits for
      it. */
  lemma {:induction false} DeadUntilReaped(s: Sys, ts: seq<Step>, z: nat)
    requires Inv(s) && AllEnabled(s, ts) && z < |s.procs| && s.procs[z].state == ZOMBIE
    requires forall i :: 0 <= i < |ts| ==> !(ts[i].WaitReap? && ts[i].z == z)
    ensures |Run(s, ts).procs| == |s.procs| && Run(s, ts).procs[z].state == ZOMBIE
    ensures Run(s, ts).procs[z].parent in {s.procs[z].parent, s.init as int}
    decreases |ts|
  {
    if ts != [] {
      var u := Apply(s, ts[0]);
      StepKeeps(s, ts[0]);
      StepZombie(s, ts[0], z);
      forall i | 0 <= i < |ts[1..]| ensures !(ts[1..][i].WaitReap? && ts[1..][i].z == z) {
        assert ts[1..][i] == ts[i + 1];
      }
      assert u.init == s.init;
      DeadUntilReaped(u, ts[1..], z);
    }
  }

  /** A process that is taken up after yield, sleep or fork goes on in its own code, without the lock. */
  lemma GoesOn(s: Sys, c: nat, i: nat)
    requires c < |s.cpus| && i < |s.procs| && s.procs[i].at in {InYield, InSleep, InForkret}
    ensures Enabled(Taken(s, c, i), Return(c))
    ensures var u := Apply(Taken(s, c, i), Return(c));
      && u.procs == s.procs[i := s.procs[i].(state := RUNNING, at := Code, chan := NoChan)]
      && u.cpus == s.cpus[c := Cpu(i, Running)] && u.lock == -1
  {
  }

  /** A process taken up in wait finds a dead child, frees its slot and goes on. */
  lemma FindsChild(u: Sys, c: nat, p: nat, q: nat)
    requires c < |u.cpus| && p < |u.procs| && q < |u.procs| && p != q && u.procs[p].at == InWait
    requires u.procs[q].parent == p && u.procs[q].state == ZOMBIE
    ensures Enabled(Taken(u, c, p), WaitReap(c, q))
    ensures var v := Apply(Taken(u, c, p), WaitReap(c, q));
      && v.procs == u.procs[p := u.procs[p].(state := RUNNING, at := Code, chan := NoChan)][q := CLEARED]
      && v.cpus == u.cpus[c := Cpu(p, Running)] && v.lock == -1
  {
    assert DeadChild(Taken(u, c, p).procs, p, q);
  }

  /** A child exits while its parent waits: the parent is woken, and when it is next taken up it finds the child, frees
      its slot and goes on. */
  lemma ExitIsWaitedFor(s: Sys, c: nat, p: nat) returns (ts: seq<Step>)
    requires Inv(s) && Enabled(s, Exit(c)) && p < |s.procs| && s.procs[s.cpus[c].proc].parent == p
    requires s.procs[p].state == SLEEPING && s.procs[p].at == InWait
    requires FirstRunnable(Apply(s, Exit(c)), s.cpus[c].proc + 1, p)
    ensures var u := Apply(s, Exit(c));
      && AllEnabled(u, [SchedBack(c)] + ts) && OfScheduler(ts, c)
      && Enabled(Run(u, [SchedBack(c)] + ts), WaitReap(c, s.cpus[c].proc))
    ensures var v := Apply(Run(Apply(s, Exit(c)), [SchedBack(c)] + ts), WaitReap(c, s.cpus[c].proc));
      && |v.procs| == |s.procs| && v.procs[s.cpus[c].proc] == CLEARED && v.lock == -1
      && v.cpus == s.cpus[c := Cpu(p, Running)]
      && v.procs[p].state == RUNNING && v.procs[p].at == Code && v.procs[p].chan == NoChan
  {
    var q, u := s.cpus[c].proc, Apply(s, Exit(c));
    assert CpuOk(s, c) && ProcOk(s, q) && q != p;
    ExitedAt(s.procs, q, s.init, q);
    ExitedAt(s.procs, q, s.init, p);
    ts := GoesOnBehind(s, Exit(c), p);
    FindsChild(u, c, p, q);
    assert u.cpus[c := Cpu(p, Running)] == s.cpus[c := Cpu(p, Running)];
  }
}
