/** The process table as a transition system. Sections under ptable.lock are steps, cut where swtch passes the lock from
    a process to its CPU's scheduler or back; writes that the code makes without the lock are steps of their own. */
module ProcessTable {

  datatype PState = UNUSED | EMBRYO | SLEEPING | RUNNABLE | RUNNING | ZOMBIE

  /** What a process sleeps on: itself, in wait, or something else. */
  datatype Chan = NoChan | OnProc(p: nat) | OnOther(n: nat)

  /** Where a process's thread is: in code of its own, or at a call of sched. */
  datatype Place = Code | InYield | InSleep | InWait | InForkret | Gone

  /** Whether a process is in the middle of fork, filling slot np, and has set its parent. */
  datatype Fork = NoFork | Forking(np: nat, linked: bool)

  datatype Proc = Proc(state: PState, parent: int, chan: Chan, killed: bool, at: Place, fork: Fork) {
    /** Neither a free slot nor one that is being filled or emptied. */
    predicate Alive() { state == SLEEPING || state == RUNNABLE || state == RUNNING }
  }

  /** What a CPU runs: its scheduler, without the lock, scanning slot i, having chosen, or just switched back to; or a
      process, without the lock or just switched to. */
  datatype Control = Idle | Scan(i: nat) | Picked | Switched | Running | Resumed

  datatype Cpu = Cpu(proc: int, ctl: Control)

  /** The table, the CPUs, who holds ptable.lock (-1 for nobody), and which slot is init. */
  datatype Sys = Sys(procs: seq<Proc>, cpus: seq<Cpu>, lock: int, init: nat)

  // ---------------------------------------------------------------- what the loops over the table do

  function Wake(x: Proc, ch: Chan): Proc {
    if x.state == SLEEPING && x.chan == ch then x.(state := RUNNABLE) else x
  }

  /** The table after wakeup1. */
  function Woken(ps: seq<Proc>, ch: Chan): (r: seq<Proc>)
    ensures |r| == |ps|
  {
    seq<Proc>(|ps|, i requires 0 <= i < |ps| => Wake(ps[i], ch))
  }

  /** Slot i is a dead child of q. */
  predicate DeadChild(ps: seq<Proc>, q: nat, i: nat)
    requires i < |ps|
  {
    ps[i].parent == q && ps[i].state == ZOMBIE
  }

  predicate HasChild(ps: seq<Proc>, q: nat) {
    exists i :: 0 <= i < |ps| && ps[i].parent == q
  }

  predicate HasDeadChild(ps: seq<Proc>, q: nat) {
    exists i :: 0 <= i < |ps| && DeadChild(ps, q, i)
  }

  /** exit's children go to init. */
  function Adopted(ps: seq<Proc>, q: nat, init: nat): (r: seq<Proc>)
    ensures |r| == |ps|
  {
    seq<Proc>(|ps|, i requires 0 <= i < |ps| => if ps[i].parent == q then ps[i].(parent := init) else ps[i])
  }

  /** And init is woken if one of them is dead already. */
  function PassedOn(ps: seq<Proc>, q: nat, init: nat): (r: seq<Proc>)
    ensures |r| == |ps|
  {
    if HasDeadChild(ps, q) then Woken(Adopted(ps, q, init), OnProc(init)) else Adopted(ps, q, init)
  }

  /** The table after exit by process q. */
  function Exited(ps: seq<Proc>, q: nat, init: nat): (r: seq<Proc>)
    requires q < |ps|
    ensures |r| == |ps|
  {
    var a := PassedOn(if ps[q].parent >= 0 then Woken(ps, OnProc(ps[q].parent)) else ps, q, init);
    a[q := a[q].(state := ZOMBIE, at := Gone)]
  }

  /** wakeup1's loop: the sleepers on the channel become runnable, and nothing else changes. */
  method Wakeup1(table: array<Proc>, ch: Chan)
    modifies table
    ensures table[..] == Woken(old(table[..]), ch)
    ensures forall i :: 0 <= i < table.Length ==>
      table[i] == if old(table[i].state) == SLEEPING && old(table[i].chan) == ch then old(table[i]).(state := RUNNABLE)
                  else old(table[i])
  {
    for i := 0 to table.Length
      invariant forall k :: 0 <= k < table.Length ==>
        table[k] == if k < i then Wake(old(table[k]), ch) else old(table[k])
    {
      if table[i].state == SLEEPING && table[i].chan == ch {
        table[i] := table[i].(state := RUNNABLE);
      }
    }
  }

  /** exit's loop over the children. */
  method PassChildren(table: array<Proc>, q: nat, init: nat)
    modifies table
    ensures table[..] == PassedOn(old(table[..]), q, init)
  {
    ghost var ps := table[..];
    ghost var dead := false;
    for i := 0 to table.Length
      invariant dead <==> exists k :: 0 <= k < i && DeadChild(ps, q, k)
      invariant forall k :: 0 <= k < table.Length ==>
        table[k] == (var x := if k < i && ps[k].parent == q then ps[k].(parent := init) else ps[k];
                     if dead then Wake(x, OnProc(init)) else x)
    {
      if table[i].parent == q {
        table[i] := table[i].(parent := init);
        if table[i].state == ZOMBIE {
          assert DeadChild(ps, q, i);
          Wakeup1(table, OnProc(init));
          dead := true;
        }
      }
    }
    assert dead == HasDeadChild(ps, q);
    assert forall k :: 0 <= k < |ps| ==> table[..][k] == PassedOn(ps, q, init)[k];
  }

  /** exit, under the lock and up to its call of sched. */
  method ExitSection(table: array<Proc>, q: nat, init: nat)
    requires q < table.Length
    modifies table
    ensures table[..] == Exited(old(table[..]), q, init)
    ensures forall r :: 0 <= r < table.Length ==>
      var x := old(table[r]);
      table[r] == x.(parent := if x.parent == q then init else x.parent,
                     at := if r == q then Gone else x.at,
                     state := if r == q then ZOMBIE
                              else if x.state == SLEEPING && ExitWakes(old(table[..]), q, init, x.chan) then RUNNABLE
                              else x.state)
  {
    ghost var ps := table[..];
    if table[q].parent >= 0 {
      Wakeup1(table, OnProc(table[q].parent));
    }
    PassChildren(table, q, init);
    table[q] := table[q].(state := ZOMBIE, at := Gone);
    forall r | 0 <= r < table.Length ensures table[r] == table[..][r] && old(table[r]) == ps[r] { }
    forall r | 0 <= r < table.Length { ExitedAt(ps, q, init, r); }
  }

  /** wait's scan stops at the first dead child, and otherwise tells whether there are children. */
  method WaitScan(table: array<Proc>, q: nat) returns (havekids: bool, z: int)
    ensures z == -1 <==> !HasDeadChild(table[..], q)
    ensures z != -1 ==> 0 <= z < table.Length && DeadChild(table[..], q, z)
    ensures z != -1 ==> forall k :: 0 <= k < z ==> !DeadChild(table[..], q, k)
    ensures havekids <==> HasChild(table[..], q)
  {
    havekids := false;
    for i := 0 to table.Length
      invariant havekids <==> exists k :: 0 <= k < i && table[..][k].parent == q
      invariant forall k :: 0 <= k < i ==> !DeadChild(table[..], q, k)
    {
      assert table[..][i] == table[i];
      if table[i].parent == q {
        havekids := true;
        if table[i].state == ZOMBIE {
          assert DeadChild(table[..], q, i);
          return true, i;
        }
      }
    }
    return havekids, -1;
  }

  /** A slot that wait has cleared. */
  const CLEARED: Proc := Proc(UNUSED, -1, NoChan, false, Gone, NoFork)

  // ---------------------------------------------------------------- steps

  datatype Step =
    | SchedEnter(c: nat) | SchedSkip(c: nat) | SchedLeave(c: nat)
    | SchedPick(c: nat) | SchedRun(c: nat) | SchedBack(c: nat)
    | Return(c: nat)
    | Yield(c: nat) | Sleep(c: nat, n: nat) | Exit(c: nat)
    | WaitReap(c: nat, z: nat) | WaitFail(c: nat) | WaitSleep(c: nat)
    | Wakeup(ch: Chan) | Kill(p: nat)
    | Alloc(c: nat, np: nat) | AllocFail(c: nat) | Link(c: nat) | Launch(c: nat)

  /** CPU c runs a process outside the lock. */
  predicate Runs(s: Sys, c: nat) {
    c < |s.cpus| && s.cpus[c].ctl == Running && 0 <= s.cpus[c].proc < |s.procs|
  }

  /** The same, when the process is not in the middle of fork. */
  predicate Calls(s: Sys, c: nat) {
    s.lock == -1 && Runs(s, c) && s.procs[s.cpus[c].proc].fork == NoFork
  }

  /** CPU c runs a process that holds the lock again after sched, at this place. */
  predicate Back(s: Sys, c: nat, at: Place) {
    && c < |s.cpus| && s.lock == c && s.cpus[c].ctl == Resumed && 0 <= s.cpus[c].proc < |s.procs|
    && s.procs[s.cpus[c].proc].at == at
  }

  /** The process on CPU c may scan the table in wait: it has taken the lock, or has it back after sleeping there. */
  predicate Waits(s: Sys, c: nat) {
    Calls(s, c) || Back(s, c, InWait)
  }

  /** CPU c runs a process in the middle of fork. */
  predicate Forks(s: Sys, c: nat, linked: bool) {
    && Runs(s, c) && s.procs[s.cpus[c].proc].fork.Forking? && s.procs[s.cpus[c].proc].fork.linked == linked
    && s.procs[s.cpus[c].proc].fork.np < |s.procs|
  }

  predicate Scans(s: Sys, c: nat) {
    c < |s.cpus| && s.lock == c && s.cpus[c].ctl.Scan?
  }

  predicate Enabled(s: Sys, t: Step) {
    match t
    case SchedEnter(c) => c < |s.cpus| && s.lock == -1 && s.cpus[c].ctl == Idle
    case SchedSkip(c) => Scans(s, c) && s.cpus[c].ctl.i < |s.procs| && s.procs[s.cpus[c].ctl.i].state != RUNNABLE
    case SchedLeave(c) => Scans(s, c) && s.cpus[c].ctl.i == |s.procs|
    case SchedPick(c) => Scans(s, c) && s.cpus[c].ctl.i < |s.procs| && s.procs[s.cpus[c].ctl.i].state == RUNNABLE
    case SchedRun(c) => c < |s.cpus| && s.lock == c && s.cpus[c].ctl == Picked && 0 <= s.cpus[c].proc < |s.procs|
    case SchedBack(c) => c < |s.cpus| && s.lock == c && s.cpus[c].ctl == Switched && 0 <= s.cpus[c].proc < |s.procs|
    case Return(c) => Back(s, c, InYield) || Back(s, c, InSleep) || Back(s, c, InForkret)
    case Yield(c) => s.lock == -1 && Runs(s, c)
    case Sleep(c, n) => Calls(s, c)
    case Exit(c) => Calls(s, c) && s.cpus[c].proc != s.init
    case WaitReap(c, z) => Waits(s, c) && z < |s.procs| && DeadChild(s.procs, s.cpus[c].proc, z)
    case WaitFail(c) =>
      Waits(s, c) && !HasDeadChild(s.procs, s.cpus[c].proc)
      && (!HasChild(s.procs, s.cpus[c].proc) || s.procs[s.cpus[c].proc].killed)
    case WaitSleep(c) =>
      Waits(s, c) && !HasDeadChild(s.procs, s.cpus[c].proc) && HasChild(s.procs, s.cpus[c].proc)
      && !s.procs[s.cpus[c].proc].killed
    case Wakeup(ch) => s.lock == -1
    case Kill(p) => s.lock == -1 && p < |s.procs|
    case Alloc(c, np) => Calls(s, c) && np < |s.procs| && s.procs[np].state == UNUSED
    case AllocFail(c) => Forks(s, c, false)
    case Link(c) => Forks(s, c, false)
    case Launch(c) => s.lock == -1 && Forks(s, c, true)
  }

  function SetCpu(s: Sys, c: nat, x: Cpu, lock: int): Sys
    requires c < |s.cpus|
  {
    s.(cpus := s.cpus[c := x], lock := lock)
  }

  function SetProc(s: Sys, q: nat, x: Proc): Sys
    requires q < |s.procs|
  {
    s.(procs := s.procs[q := x])
  }

  /** The process on CPU c, with the lock taken if it was not, changes its own slot and switches to the scheduler. */
  function Switch(s: Sys, c: nat, x: Proc): Sys
    requires c < |s.cpus| && 0 <= s.cpus[c].proc < |s.procs|
  {
    SetCpu(SetProc(s, s.cpus[c].proc, x), c, s.cpus[c].(ctl := Switched), c)
  }

  function Apply(s: Sys, t: Step): Sys
    requires Enabled(s, t)
  {
    match t
    case SchedEnter(c) => SetCpu(s, c, Cpu(-1, Scan(0)), c)
    case SchedSkip(c) => SetCpu(s, c, s.cpus[c].(ctl := Scan(s.cpus[c].ctl.i + 1)), c)
    case SchedLeave(c) => SetCpu(s, c, s.cpus[c].(ctl := Idle), -1)
    case SchedPick(c) => SetCpu(s, c, Cpu(s.cpus[c].ctl.i, Picked), c)
    case SchedRun(c) =>
      var q := s.cpus[c].proc;
      SetCpu(SetProc(s, q, s.procs[q].(state := RUNNING)), c, s.cpus[c].(ctl := Resumed), c)
    case SchedBack(c) => SetCpu(s, c, Cpu(-1, Scan(s.cpus[c].proc + 1)), c)
    case Return(c) =>
      var q := s.cpus[c].proc;
      SetCpu(SetProc(s, q, s.procs[q].(at := Code, chan := NoChan)), c, s.cpus[c].(ctl := Running), -1)
    case Yield(c) => Switch(s, c, s.procs[s.cpus[c].proc].(state := RUNNABLE, at := InYield))
    case Sleep(c, n) => Switch(s, c, s.procs[s.cpus[c].proc].(state := SLEEPING, chan := OnOther(n), at := InSleep))
    case Exit(c) =>
      var q := s.cpus[c].proc;
      SetCpu(s.(procs := Exited(s.procs, q, s.init)), c, s.cpus[c].(ctl := Switched), c)
    case WaitReap(c, z) =>
      var q := s.cpus[c].proc;
      var u := SetProc(s, q, s.procs[q].(at := Code, chan := NoChan));
      SetCpu(SetProc(u, z, CLEARED), c, s.cpus[c].(ctl := Running), -1)
    case WaitFail(c) =>
      var q := s.cpus[c].proc;
      SetCpu(SetProc(s, q, s.procs[q].(at := Code, chan := NoChan)), c, s.cpus[c].(ctl := Running), -1)
    case WaitSleep(c) =>
      var q := s.cpus[c].proc;
      Switch(s, c, s.procs[q].(state := SLEEPING, chan := OnProc(q), at := InWait))
    case Wakeup(ch) => s.(procs := Woken(s.procs, ch))
    case Kill(p) =>
      var x := s.procs[p];
      SetProc(s, p, x.(killed := true, state := if x.state == SLEEPING then RUNNABLE else x.state))
    case Alloc(c, np) =>
      var q := s.cpus[c].proc;
      var u := SetProc(s, np, s.procs[np].(state := EMBRYO));
      SetProc(u, q, u.procs[q].(fork := Forking(np, false)))
    case AllocFail(c) =>
      var q := s.cpus[c].proc;
      var np := s.procs[q].fork.np;
      var u := SetProc(s, np, s.procs[np].(state := UNUSED));
      SetProc(u, q, u.procs[q].(fork := NoFork))
    case Link(c) =>
      var q := s.cpus[c].proc;
      var np := s.procs[q].fork.np;
      var u := SetProc(s, np, s.procs[np].(parent := q));
      SetProc(u, q, u.procs[q].(fork := Forking(np, true)))
    case Launch(c) =>
      var q := s.cpus[c].proc;
      var np := s.procs[q].fork.np;
      var u := SetProc(s, np, s.procs[np].(state := RUNNABLE, at := InForkret));
      SetProc(u, q, u.procs[q].(fork := NoFork))
  }

  // ---------------------------------------------------------------- the invariant

  /** CPU c, its process and the lock agree. */
  predicate CpuOk(s: Sys, c: nat)
    requires c < |s.cpus|
  {
    var q := s.cpus[c].proc;
    && -1 <= q < |s.procs|
    && match s.cpus[c].ctl
       case Idle => q == -1 && s.lock != c
       case Scan(i) => q == -1 && s.lock == c && i <= |s.procs|
       case Picked => q >= 0 && s.lock == c && s.procs[q].state == RUNNABLE
       case Switched => q >= 0 && s.lock == c && s.procs[q].state in {RUNNABLE, SLEEPING, ZOMBIE}
       case Running => q >= 0 && s.lock != c && s.procs[q].state == RUNNING && s.procs[q].at == Code
       case Resumed =>
         && q >= 0 && s.lock == c && s.procs[q].state == RUNNING
         && s.procs[q].at in {InYield, InSleep, InWait, InForkret}
  }

  /** No two CPUs have the same process. */
  ghost predicate OneCpuEach(s: Sys) {
    forall c, d :: 0 <= c < d < |s.cpus| && s.cpus[c].proc >= 0 ==> s.cpus[c].proc != s.cpus[d].proc
  }

  ghost predicate OnCpu(s: Sys, q: int) {
    exists c :: 0 <= c < |s.cpus| && s.cpus[c].proc == q
  }

  /** Slot q is in order. */
  ghost predicate ProcOk(s: Sys, q: nat)
    requires q < |s.procs|
  {
    var x := s.procs[q];
    && (x.state == RUNNING ==> OnCpu(s, q))
    && (x.state == RUNNABLE ==> x.at in {InYield, InSleep, InWait, InForkret})
    && (x.state == SLEEPING ==> x.at == InSleep || (x.at == InWait && x.chan == OnProc(q)))
    && (x.parent == -1 || (0 <= x.parent < |s.procs| && x.parent != q && s.procs[x.parent].Alive()))
    && (x.state == UNUSED ==> x.parent == -1)
    && (x.state == SLEEPING && x.at == InWait ==> HasChild(s.procs, q) && !HasDeadChild(s.procs, q))
    && (x.fork.Forking? ==> (x.state == RUNNING || x.state == RUNNABLE) && x.at in {Code, InYield} && ForkOk(s, q))
  }

  /** The slot that q is filling is its alone. */
  ghost predicate ForkOk(s: Sys, q: nat)
    requires q < |s.procs| && s.procs[q].fork.Forking?
  {
    var np := s.procs[q].fork.np;
    && np < |s.procs| && s.procs[np].state == EMBRYO && s.procs[np].parent == (if s.procs[q].fork.linked then q else -1)
    && forall r :: 0 <= r < |s.procs| && r != q && s.procs[r].fork.Forking? ==> s.procs[r].fork.np != np
  }

  ghost predicate Inv(s: Sys) {
    && -1 <= s.lock < |s.cpus| && s.init < |s.procs| && s.procs[s.init].Alive() && s.procs[s.init].parent == -1
    && (forall c {:trigger CpuOk(s, c)} :: 0 <= c < |s.cpus| ==> CpuOk(s, c))
    && OneCpuEach(s)
    && (forall q {:trigger ProcOk(s, q)} :: 0 <= q < |s.procs| ==> ProcOk(s, q))
  }

  // ---------------------------------------------------------------- every step keeps it

  /** OnCpu survives a change of CPU c that leaves its process, or when it had another. */
  lemma OnCpuKept(s: Sys, s': Sys, c: nat, q: int)
    requires OnCpu(s, q) && c < |s.cpus| == |s'.cpus| && (s'.cpus[c].proc == s.cpus[c].proc || s.cpus[c].proc != q)
    requires forall d :: 0 <= d < |s.cpus| && d != c ==> s'.cpus[d] == s.cpus[d]
    ensures OnCpu(s', q)
  {
    var d :| 0 <= d < |s.cpus| && s.cpus[d].proc == q;
    assert s'.cpus[d].proc == q;
  }

  /** The scheduler's own steps. */
  lemma SchedulerKeeps(s: Sys, t: Step)
    requires Inv(s) && Enabled(s, t)
    requires t.SchedEnter? || t.SchedSkip? || t.SchedLeave? || t.SchedPick? || t.SchedBack?
    ensures Inv(Apply(s, t))
  {
    var s', c := Apply(s, t), t.c;
    assert CpuOk(s, c);
    forall d | 0 <= d < |s.cpus| ensures CpuOk(s', d) { assert CpuOk(s, d); }
    forall d | 0 <= d < |s.cpus| && d != c
      ensures s'.cpus[d] == s.cpus[d] && (s'.cpus[c].proc >= 0 ==> s.cpus[d].proc != s'.cpus[c].proc)
    {
      assert CpuOk(s, d);
    }
    forall q | 0 <= q < |s.procs| ensures ProcOk(s', q) {
      assert ProcOk(s, q);
      if s.procs[q].state == RUNNING { OnCpuKept(s, s', c, q); }
    }
  }

  /** Process q on CPU c changes its own slot, and c its control; q stays alive, keeps its parent and its fork. */
  ghost predicate OwnStep(s: Sys, s': Sys, c: nat) {
    && c < |s.cpus| == |s'.cpus| && |s'.procs| == |s.procs| && s'.init == s.init && 0 <= s.cpus[c].proc < |s.procs|
    && s'.cpus[c].proc == s.cpus[c].proc && -1 <= s'.lock < |s.cpus|
    && (forall d :: 0 <= d < |s.cpus| && d != c ==> s'.cpus[d] == s.cpus[d])
    && (forall q :: 0 <= q < |s.procs| && q != s.cpus[c].proc ==> s'.procs[q] == s.procs[q])
    && var x, y := s.procs[s.cpus[c].proc], s'.procs[s.cpus[c].proc];
       x.Alive() && y.Alive() && y.parent == x.parent && y.fork == x.fork
  }

  lemma SameFamily(ps: seq<Proc>, ps': seq<Proc>, q: nat)
    requires |ps| == |ps'| && forall i :: 0 <= i < |ps| ==>
      ps'[i].parent == ps[i].parent && (ps'[i].state == ZOMBIE <==> ps[i].state == ZOMBIE)
    ensures HasChild(ps', q) == HasChild(ps, q) && HasDeadChild(ps', q) == HasDeadChild(ps, q)
  {
    if HasChild(ps, q) { var i :| 0 <= i < |ps| && ps[i].parent == q; assert ps'[i].parent == q; }
    if HasChild(ps', q) { var i :| 0 <= i < |ps| && ps'[i].parent == q; assert ps[i].parent == q; }
    if HasDeadChild(ps, q) { var i :| 0 <= i < |ps| && DeadChild(ps, q, i); assert DeadChild(ps', q, i); }
    if HasDeadChild(ps', q) { var i :| 0 <= i < |ps| && DeadChild(ps', q, i); assert DeadChild(ps, q, i); }
  }

  /** Such a step keeps the order of all other slots. */
  lemma OwnStepOthers(s: Sys, s': Sys, c: nat, q: nat)
    requires Inv(s) && OwnStep(s, s', c) && q < |s.procs| && q != s.cpus[c].proc
    ensures ProcOk(s', q)
  {
    assert ProcOk(s, q);
    SameFamily(s.procs, s'.procs, q);
    if s.procs[q].state == RUNNING { OnCpuKept(s, s', c, q); }
  }

  predicate OwnSlotOnly(t: Step) {
    t.SchedRun? || t.Return? || t.Yield? || t.Sleep? || t.WaitFail? || t.WaitSleep?
  }

  lemma ProcessIsOwnStep(s: Sys, t: Step)
    requires Inv(s) && Enabled(s, t) && OwnSlotOnly(t)
    ensures OwnStep(s, Apply(s, t), t.c)
  {
    assert CpuOk(s, t.c);
    assert ProcOk(s, s.cpus[t.c].proc);
  }

  lemma ProcessCpu(s: Sys, t: Step, d: nat)
    requires Inv(s) && Enabled(s, t) && OwnSlotOnly(t) && d < |s.cpus|
    ensures d < |Apply(s, t).cpus| && CpuOk(Apply(s, t), d)
  {
    assert CpuOk(s, t.c) && CpuOk(s, d);
    assert ProcOk(s, s.cpus[t.c].proc);
  }

  lemma ProcessOwnSlot(s: Sys, t: Step, q: nat)
    requires Inv(s) && Enabled(s, t) && OwnSlotOnly(t) && q == s.cpus[t.c].proc
    ensures q < |Apply(s, t).procs| && ProcOk(Apply(s, t), q)
  {
    var s' := Apply(s, t);
    assert CpuOk(s, t.c);
    assert ProcOk(s, q);
    ProcessIsOwnStep(s, t);
    SameFamily(s.procs, s'.procs, q);
    assert s'.cpus[t.c].proc == q;
  }

  /** Steps of a process that concern its own slot. */
  lemma ProcessKeeps(s: Sys, t: Step)
    requires Inv(s) && Enabled(s, t) && OwnSlotOnly(t)
    ensures Inv(Apply(s, t))
  {
    var s' := Apply(s, t);
    ProcessIsOwnStep(s, t);
    forall d | 0 <= d < |s'.cpus| ensures CpuOk(s', d) { ProcessCpu(s, t, d); }
    forall r | 0 <= r < |s'.procs| ensures ProcOk(s', r) {
      if r == s.cpus[t.c].proc { ProcessOwnSlot(s, t, r); } else { OwnStepOthers(s, s', t.c, r); }
    }
  }

  /** Some sleepers have become runnable, and nothing else in the table has changed but marks of being killed. */
  ghost predicate SomeWoken(ps: seq<Proc>, ps': seq<Proc>) {
    && |ps'| == |ps|
    && forall i :: 0 <= i < |ps| ==>
         ps'[i] == ps[i].(killed := ps'[i].killed)
         || (ps[i].state == SLEEPING && ps'[i] == ps[i].(state := RUNNABLE, killed := ps'[i].killed))
  }

  lemma WakingKeeps(s: Sys, ps: seq<Proc>)
    requires Inv(s) && SomeWoken(s.procs, ps)
    ensures Inv(s.(procs := ps))
  {
    var s' := s.(procs := ps);
    forall d | 0 <= d < |s.cpus| ensures CpuOk(s', d) { assert CpuOk(s, d); }
    forall q | 0 <= q < |ps| ensures ProcOk(s', q) {
      assert ProcOk(s, q);
      SameFamily(s.procs, ps, q);
      if s.procs[q].state == RUNNING { assert OnCpu(s, q) && OnCpu(s', q); }
    }
  }

  // ---------------------------------------------------------------- exit

  /** q's exit wakes the sleepers on this channel: its parent, and init when it gets a dead child. */
  predicate ExitWakes(ps: seq<Proc>, q: nat, init: nat, ch: Chan)
    requires q < |ps|
  {
    (ps[q].parent >= 0 && ch == OnProc(ps[q].parent)) || (HasDeadChild(ps, q) && ch == OnProc(init))
  }

  /** What the table holds of process r after q's exit. */
  lemma ExitedAt(ps: seq<Proc>, q: nat, init: nat, r: nat)
    requires q < |ps| && r < |ps|
    ensures var x, y := ps[r], Exited(ps, q, init)[r];
      && y.killed == x.killed && y.chan == x.chan && y.fork == x.fork
      && y.parent == (if x.parent == q then init else x.parent)
      && (r == q ==> y.state == ZOMBIE && y.at == Gone)
      && (r != q ==> y.at == x.at && y.state == if x.state == SLEEPING && ExitWakes(ps, q, init, x.chan) then RUNNABLE
                                              else x.state)
  {
    if ps[q].parent >= 0 { SameFamily(ps, Woken(ps, OnProc(ps[q].parent)), q); }
  }

  /** A process still asleep in wait after q's exit has a child and no dead one. */
  lemma ExitedWaiter(s: Sys, q: nat, r: nat)
    requires Inv(s) && q < |s.procs| && r < |s.procs| && q != s.init && q != r && s.procs[q].state == RUNNING
    requires var y := Exited(s.procs, q, s.init)[r]; y.state == SLEEPING && y.at == InWait
    ensures var ps := Exited(s.procs, q, s.init); HasChild(ps, r) && !HasDeadChild(ps, r)
  {
    var ps := Exited(s.procs, q, s.init);
    ExitedAt(s.procs, q, s.init, r);
    assert ProcOk(s, r) && ProcOk(s, q);
    var i :| 0 <= i < |s.procs| && s.procs[i].parent == r;
    ExitedAt(s.procs, q, s.init, i);
    assert ps[i].parent == r;
    forall j | 0 <= j < |ps| ensures !DeadChild(ps, r, j) {
      ExitedAt(s.procs, q, s.init, j);
      assert !DeadChild(s.procs, r, j);
      if s.procs[j].parent == q && s.procs[j].state == ZOMBIE { assert DeadChild(s.procs, q, j); }
    }
  }

  lemma ExitKeeps(s: Sys, c: nat)
    requires Inv(s) && Enabled(s, Exit(c))
    ensures Inv(Apply(s, Exit(c)))
  {
    var s' := Apply(s, Exit(c));
    assert CpuOk(s, c);
    var q := s.cpus[c].proc;
    assert ProcOk(s, q);
    ExitedAt(s.procs, q, s.init, s.init);
    forall d | 0 <= d < |s.cpus| ensures CpuOk(s', d) {
      assert CpuOk(s, d);
      if d != c && s.cpus[d].proc >= 0 { ExitedAt(s.procs, q, s.init, s.cpus[d].proc); }
      ExitedAt(s.procs, q, s.init, q);
    }
    forall r | 0 <= r < |s.procs| ensures ProcOk(s', r) { ExitedSlot(s, c, q, r); }
  }

  lemma ExitedSlot(s: Sys, c: nat, q: nat, r: nat)
    requires Inv(s) && Enabled(s, Exit(c)) && q == s.cpus[c].proc && q < |s.procs| && r < |s.procs|
    ensures ProcOk(Apply(s, Exit(c)), r)
  {
    var s' := Apply(s, Exit(c));
    assert CpuOk(s, c) && ProcOk(s, q) && ProcOk(s, r);
    ExitedAt(s.procs, q, s.init, r);
    var p := s.procs[r].parent;
    if p >= 0 { ExitedAt(s.procs, q, s.init, p); }
    ExitedAt(s.procs, q, s.init, s.init);
    if s.procs[r].state == RUNNING && r != q { OnCpuKept(s, s', c, r); }
    if r != q && s'.procs[r].state == SLEEPING && s'.procs[r].at == InWait { ExitedWaiter(s, q, r); }
    if s.procs[r].fork.Forking? { ExitedFork(s, c, q, r); }
  }

  lemma ExitedFork(s: Sys, c: nat, q: nat, r: nat)
    requires Inv(s) && Enabled(s, Exit(c)) && q == s.cpus[c].proc && q < |s.procs| && r < |s.procs|
    requires s.procs[r].fork.Forking? && ProcOk(s, r)
    ensures Exited(s.procs, q, s.init)[r].fork == s.procs[r].fork && ForkOk(Apply(s, Exit(c)), r)
  {
    assert CpuOk(s, c);
    ExitedAt(s.procs, q, s.init, r);
    ExitedAt(s.procs, q, s.init, s.procs[r].fork.np);
    forall i | 0 <= i < |s.procs| ensures Exited(s.procs, q, s.init)[i].fork == s.procs[i].fork {
      ExitedAt(s.procs, q, s.init, i);
    }
  }

  // ---------------------------------------------------------------- wait and fork

  lemma ReapKeeps(s: Sys, c: nat, z: nat)
    requires Inv(s) && Enabled(s, WaitReap(c, z))
    ensures Inv(Apply(s, WaitReap(c, z)))
  {
    var s' := Apply(s, WaitReap(c, z));
    assert CpuOk(s, c);
    assert ProcOk(s, s.cpus[c].proc) && ProcOk(s, z);
    forall d | 0 <= d < |s.cpus| ensures CpuOk(s', d) { assert CpuOk(s, d); }
    forall r | 0 <= r < |s.procs| ensures ProcOk(s', r) { ReapedSlot(s, c, z, r); }
  }

  lemma ReapedSlot(s: Sys, c: nat, z: nat, r: nat)
    requires Inv(s) && Enabled(s, WaitReap(c, z)) && r < |s.procs|
    ensures ProcOk(Apply(s, WaitReap(c, z)), r)
  {
    var s' := Apply(s, WaitReap(c, z));
    assert CpuOk(s, c);
    var q := s.cpus[c].proc;
    assert ProcOk(s, q) && ProcOk(s, r);
    if r == q { assert s'.cpus[c].proc == q; }
    if s.procs[r].state == RUNNING && r != q { OnCpuKept(s, s', c, r); }
    if r != q && s.procs[r].state == SLEEPING && s.procs[r].at == InWait {
      var i :| 0 <= i < |s.procs| && s.procs[i].parent == r;
      assert s'.procs[i].parent == r;
      forall j | 0 <= j < |s.procs| ensures !DeadChild(s'.procs, r, j) { assert !DeadChild(s.procs, r, j); }
    }
  }

  /** fork's steps change the forking process's note of them and the slot being filled. */
  ghost predicate ForkStep(s: Sys, s': Sys, q: nat, np: nat) {
    && |s'.procs| == |s.procs| && s'.cpus == s.cpus && s'.lock == s.lock && s'.init == s.init
    && q < |s.procs| && np < |s.procs|
    && q != np && (forall r :: 0 <= r < |s.procs| && r != q && r != np ==> s'.procs[r] == s.procs[r])
    && s'.procs[q] == s.procs[q].(fork := s'.procs[q].fork) && s.procs[q].state == RUNNING
    && !s.procs[np].Alive() && s.procs[np].state != ZOMBIE && s'.procs[np].state != ZOMBIE
    && s'.procs[np].state != RUNNING && s'.procs[np].state != SLEEPING && s'.procs[np].fork == s.procs[np].fork
    && (s.procs[np].parent == -1 || s.procs[np].parent == q) && (s'.procs[np].parent == -1 || s'.procs[np].parent == q)
  }

  lemma ForkStepOthers(s: Sys, s': Sys, q: nat, np: nat, r: nat)
    requires Inv(s) && ForkStep(s, s', q, np) && r < |s.procs| && r != q && r != np
    requires s.procs[r].fork.Forking? ==>
      s.procs[r].fork.np != np && (s'.procs[q].fork.Forking? ==> s'.procs[q].fork.np == np)
    ensures ProcOk(s', r)
  {
    assert ProcOk(s, r) && ProcOk(s, q) && ProcOk(s, np);
    if s.procs[r].state == RUNNING { assert OnCpu(s, r) && OnCpu(s', r); }
    if s.procs[r].state == SLEEPING && s.procs[r].at == InWait {
      var i :| 0 <= i < |s.procs| && s.procs[i].parent == r;
      assert s'.procs[i].parent == r;
      forall j | 0 <= j < |s.procs| ensures !DeadChild(s'.procs, r, j) { assert !DeadChild(s.procs, r, j); }
    }
  }

  /** The slot a process in fork is filling, or is about to. */
  function Filled(s: Sys, t: Step): nat
    requires Enabled(s, t) && (t.Alloc? || t.AllocFail? || t.Link? || t.Launch?)
  {
    if t.Alloc? then t.np else s.procs[s.cpus[t.c].proc].fork.np
  }

  lemma ForkIsForkStep(s: Sys, t: Step)
    requires Inv(s) && Enabled(s, t) && (t.Alloc? || t.AllocFail? || t.Link? || t.Launch?)
    ensures var q, np := s.cpus[t.c].proc, Filled(s, t);
      && 0 <= q && ForkStep(s, Apply(s, t), q, np)
      && forall i :: 0 <= i < |s.procs| && i != q && s.procs[i].fork.Forking? ==> s.procs[i].fork.np != np
  {
    assert CpuOk(s, t.c);
    var q, np := s.cpus[t.c].proc, Filled(s, t);
    assert ProcOk(s, q) && ProcOk(s, np);
    forall i | 0 <= i < |s.procs| && i != q && s.procs[i].fork.Forking? ensures s.procs[i].fork.np != np {
      assert ProcOk(s, i);
    }
  }

  lemma ForkingSlot(s: Sys, t: Step, s': Sys, q: nat, np: nat)
    requires Inv(s) && Enabled(s, t) && (t.Alloc? || t.AllocFail? || t.Link? || t.Launch?) && q == s.cpus[t.c].proc
    requires s' == Apply(s, t) && np == Filled(s, t) && ForkStep(s, s', q, np)
    requires forall i :: 0 <= i < |s.procs| && i != q && s.procs[i].fork.Forking? ==> s.procs[i].fork.np != np
    ensures ProcOk(s', q)
  {
    assert CpuOk(s, t.c);
    assert ProcOk(s, q) && ProcOk(s, np);
    assert s'.cpus[t.c].proc == q;
  }

  lemma FilledSlot(s: Sys, t: Step, s': Sys, q: nat, np: nat)
    requires Inv(s) && Enabled(s, t) && (t.Alloc? || t.AllocFail? || t.Link? || t.Launch?) && q == s.cpus[t.c].proc
    requires s' == Apply(s, t) && np == Filled(s, t) && ForkStep(s, s', q, np)
    ensures ProcOk(s', np)
  {
    assert ProcOk(s, q) && ProcOk(s, np);
  }

  lemma ForkKeeps(s: Sys, t: Step)
    requires Inv(s) && Enabled(s, t) && (t.Alloc? || t.AllocFail? || t.Link? || t.Launch?)
    ensures Inv(Apply(s, t))
  {
    var s' := Apply(s, t);
    ForkIsForkStep(s, t);
    var q, np := s.cpus[t.c].proc, Filled(s, t);
    forall d | 0 <= d < |s.cpus| ensures CpuOk(s', d) { assert CpuOk(s, d); }
    forall r | 0 <= r < |s.procs| ensures ProcOk(s', r) {
      if r == q {
        ForkingSlot(s, t, s', q, np);
      } else if r == np {
        FilledSlot(s, t, s', q, np);
      } else {
        ForkStepOthers(s, s', q, np, r);
      }
    }
  }

  // ---------------------------------------------------------------- runs

  /** Every step keeps the invariant. */
  lemma StepKeeps(s: Sys, t: Step)
    requires Inv(s) && Enabled(s, t)
    ensures Inv(Apply(s, t))
  {
    match t {
      case SchedEnter(_) | SchedSkip(_) | SchedLeave(_) | SchedPick(_) | SchedBack(_) => SchedulerKeeps(s, t);
      case SchedRun(_) | Return(_) | Yield(_) | Sleep(_, _) | WaitFail(_) | WaitSleep(_) => ProcessKeeps(s, t);
      case Exit(c) => ExitKeeps(s, c);
      case WaitReap(c, z) => ReapKeeps(s, c, z);
      case Wakeup(ch) => WakingKeeps(s, Woken(s.procs, ch));
      case Kill(p) => WakingKeeps(s, Apply(s, t).procs);
      case Alloc(_, _) | AllocFail(_) | Link(_) | Launch(_) => ForkKeeps(s, t);
    }
  }

  /** After userinit: init is runnable, all other slots are free, and every CPU is in its scheduler. */
  predicate Started(s: Sys) {
    && s.lock == -1 && s.init < |s.procs| && s.procs[s.init] == Proc(RUNNABLE, -1, NoChan, false, InForkret, NoFork)
    && (forall q :: 0 <= q < |s.procs| && q != s.init ==> s.procs[q] == CLEARED)
    && forall c :: 0 <= c < |s.cpus| ==> s.cpus[c] == Cpu(-1, Idle)
  }

  ghost predicate AllEnabled(s: Sys, ts: seq<Step>)
    decreases |ts|
  {
    ts == [] || (Enabled(s, ts[0]) && AllEnabled(Apply(s, ts[0]), ts[1..]))
  }

  ghost function Run(s: Sys, ts: seq<Step>): Sys
    requires AllEnabled(s, ts)
    decreases |ts|
  {
    if ts == [] then s else Run(Apply(s, ts[0]), ts[1..])
  }

  lemma {:induction false} RunKeeps(s: Sys, ts: seq<Step>)
    requires Inv(s) && AllEnabled(s, ts)
    ensures Inv(Run(s, ts))
    decreases |ts|
  {
    if ts != [] {
      StepKeeps(s, ts[0]);
      RunKeeps(Apply(s, ts[0]), ts[1..]);
    }
  }

  /** In every run, whenever ptable.lock is free: a process is RUNNING exactly when some CPU, and then one only, has it;
      no UNUSED or ZOMBIE slot is anyone's parent; and a process asleep in wait has a child and no dead child. */
  lemma {:induction false} LockFreeTable(s0: Sys, ts: seq<Step>)
    requires Started(s0) && AllEnabled(s0, ts) && Run(s0, ts).lock == -1
    ensures var s := Run(s0, ts);
      && (forall q :: 0 <= q < |s.procs| ==> (s.procs[q].state == RUNNING <==> OnCpu(s, q))) && OneCpuEach(s)
      && (forall q, p :: 0 <= q < |s.procs| && 0 <= p < |s.procs| && s.procs[q].parent == p ==>
            s.procs[p].state != UNUSED && s.procs[p].state != ZOMBIE)
      && forall q :: 0 <= q < |s.procs| && s.procs[q].state == SLEEPING && s.procs[q].at == InWait ==>
           HasChild(s.procs, q) && !HasDeadChild(s.procs, q)
  {
    assert Inv(s0) by {
      forall c | 0 <= c < |s0.cpus| ensures CpuOk(s0, c) { }
      forall q | 0 <= q < |s0.procs| ensures ProcOk(s0, q) { }
    }
    RunKeeps(s0, ts);
    var s := Run(s0, ts);
    forall q | 0 <= q < |s.procs|
      ensures ProcOk(s, q) && (s.procs[q].state == RUNNING <==> OnCpu(s, q))
    {
      assert ProcOk(s, q);
      if OnCpu(s, q) {
        var c :| 0 <= c < |s.cpus| && s.cpus[c].proc == q;
        assert CpuOk(s, c);
      }
    }
  }

  // ---------------------------------------------------------------- who is killed

  /** The mark of being killed after these steps, if it was `marked` before: the last kill of slot q or clearing of it
      decides. */
  function Marked(ts: seq<Step>, q: nat, marked: bool): bool
    decreases |ts|
  {
    if ts == [] then marked
    else Marked(ts[1..], q, ts[0] == Kill(q) || (marked && !(ts[0].WaitReap? && ts[0].z == q)))
  }

  lemma ExitMarks(ps: seq<Proc>, p: nat, init: nat, q: nat)
    requires p < |ps| && q < |ps|
    ensures Exited(ps, p, init)[q].killed == ps[q].killed
  {
  }

  lemma ForkMarks(s: Sys, t: Step, q: nat)
    requires Enabled(s, t) && q < |s.procs| && (t.Alloc? || t.AllocFail? || t.Link? || t.Launch?)
    ensures |Apply(s, t).procs| == |s.procs| && Apply(s, t).procs[q].killed == s.procs[q].killed
  {
  }

  lemma StepMarks(s: Sys, t: Step, q: nat)
    requires Enabled(s, t) && q < |s.procs|
    ensures |Apply(s, t).procs| == |s.procs|
    ensures Apply(s, t).procs[q].killed <==> t == Kill(q) || (s.procs[q].killed && !(t.WaitReap? && t.z == q))
  {
    if t.Exit? {
      ExitMarks(s.procs, s.cpus[t.c].proc, s.init, q);
    } else if t.Alloc? || t.AllocFail? || t.Link? || t.Launch? {
      ForkMarks(s, t, q);
    }
  }

  /** In every run a slot is marked killed exactly if it has been killed since wait last cleared it, in use or not: fork
      does not clear the mark. So a process is born killed exactly if its slot was killed while it was free or being
      filled. */
  lemma {:induction false} KilledExactly(s: Sys, ts: seq<Step>, q: nat)
    requires AllEnabled(s, ts) && q < |s.procs|
    ensures |Run(s, ts).procs| == |s.procs| && (Run(s, ts).procs[q].killed <==> Marked(ts, q, s.procs[q].killed))
    decreases |ts|
  {
    if ts != [] {
      StepMarks(s, ts[0], q);
      KilledExactly(Apply(s, ts[0]), ts[1..], q);
    }
  }

  lemma {:induction false} RunBoth(s: Sys, ts: seq<Step>, us: seq<Step>)
    requires AllEnabled(s, ts) && AllEnabled(Run(s, ts), us)
    ensures AllEnabled(s, ts + us) && Run(s, ts + us) == Run(Run(s, ts), us)
    decreases |ts|
  {
    if ts == [] {
      assert ts + us == us;
    } else {
      assert (ts + us)[1..] == ts[1..] + us;
      RunBoth(Apply(s, ts[0]), ts[1..], us);
    }
  }

  lemma RunTwo(s: Sys, a: Step, b: Step)
    requires Enabled(s, a) && Enabled(Apply(s, a), b)
    ensures AllEnabled(s, [a, b]) && Run(s, [a, b]) == Apply(Apply(s, a), b)
  {
    assert [a, b][1..] == [b] && [b][1..] == [];
    assert AllEnabled(Apply(Apply(s, a), b), []);
    assert AllEnabled(Apply(s, a), [b]) && Run(Apply(s, a), [b]) == Apply(Apply(s, a), b);
  }

  /** The only CPU runs init, slot 0, and slot 1 is this. */
  predicate InitRuns(s: Sys, x: Proc) {
    Calls(s, 0) && s.cpus[0].proc == 0 && |s.procs| == 2 && s.procs[1] == x
  }

  /** The scheduler takes up init. */
  lemma TakeUpInit(s: Sys) returns (ts: seq<Step>)
    requires |s.cpus| == 1 && s.cpus[0] == Cpu(-1, Idle) && s.lock == -1 && |s.procs| == 2
    requires s.procs[0] == Proc(RUNNABLE, -1, NoChan, false, InForkret, NoFork)
    ensures AllEnabled(s, ts) && InitRuns(Run(s, ts), s.procs[1]) && forall i :: 0 <= i < |ts| ==> !ts[i].Kill?
  {
    RunTwo(s, SchedEnter(0), SchedPick(0));
    var s2 := Run(s, [SchedEnter(0), SchedPick(0)]);
    RunTwo(s2, SchedRun(0), Return(0));
    RunBoth(s, [SchedEnter(0), SchedPick(0)], [SchedRun(0), Return(0)]);
    ts := [SchedEnter(0), SchedPick(0)] + [SchedRun(0), Return(0)];
  }

  /** allocproc and the rest of fork, up to its last step. */
  lemma InitFills(s: Sys, x: Proc) returns (t: Sys)
    requires InitRuns(s, x) && x.state == UNUSED
    ensures AllEnabled(s, [Alloc(0, 1), Link(0)]) && t == Run(s, [Alloc(0, 1), Link(0)])
    ensures Enabled(t, Launch(0)) && |t.procs| == 2 && t.cpus[0].proc == 0 && t.procs[0].fork == Forking(1, true)
    ensures t.procs[1] == x.(state := EMBRYO, parent := 0)
  {
    RunTwo(s, Alloc(0, 1), Link(0));
    t := Apply(Apply(s, Alloc(0, 1)), Link(0));
  }

  lemma RunOne(s: Sys, a: Step)
    requires Enabled(s, a)
    ensures AllEnabled(s, [a]) && Run(s, [a]) == Apply(s, a)
  {
    assert [a][1..] == [] && AllEnabled(Apply(s, a), []);
  }

  /** init forks. */
  lemma InitForks(s: Sys, x: Proc) returns (ts: seq<Step>)
    requires InitRuns(s, x) && x.state == UNUSED
    ensures AllEnabled(s, ts) && (forall i :: 0 <= i < |ts| ==> !ts[i].Kill?) && ts != [] && ts[|ts| - 1].Launch?
    ensures var t := Run(s, ts);
      |t.procs| == 2 && t.procs[1] == x.(state := RUNNABLE, parent := 0, at := InForkret)
  {
    var s2 := InitFills(s, x);
    RunOne(s2, Launch(0));
    RunBoth(s, [Alloc(0, 1), Link(0)], [Launch(0)]);
    ts := [Alloc(0, 1), Link(0)] + [Launch(0)];
  }

  /** A process that is born killed comes about: its slot is killed while it is free, as by kill(0). */
  lemma BornKilled(s: Sys) returns (ts: seq<Step>, t: Sys)
    requires Started(s) && |s.cpus| == 1 && |s.procs| == 2 && s.init == 0
    ensures AllEnabled(s, ts) && t == Run(s, ts) && |ts| >= 2 && ts[0] == Kill(1) && ts[|ts| - 1].Launch?
    ensures |t.procs| == 2 && t.procs[1].state == RUNNABLE && t.procs[1].killed
    ensures forall i :: 1 <= i < |ts| ==> !ts[i].Kill?
  {
    var s1 := Apply(s, Kill(1));
    var us := TakeUpInit(s1);
    var vs := InitForks(Run(s1, us), s1.procs[1]);
    RunBoth(s1, us, vs);
    ts := [Kill(1)] + (us + vs);
    assert ts[1..] == us + vs;
    t := Run(s, ts);
  }
}
