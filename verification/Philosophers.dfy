/** The semaphores of proc.c and the dining philosophers, any number of them from two on. Semaphores 0 .. n-1 are the
    spoons, semaphore n is the right to print. */
module Philosophers {

  /** struct semaphore; owner is set to the semaphore's own index by sem_acquire. */
  datatype Sem = Sem(val: int, owner: int)

  /** A philosopher's place in main, and whether its process is asleep in sem_acquire there. */
  datatype Phil = Phil(pc: nat, asleep: bool)

  datatype Table = Table(phils: seq<Phil>, sems: seq<Sem>) {
    function N(): nat { |phils| }
  }

  // ---------------------------------------------------------------- main, as a list of calls

  const PLACES: nat := 10

  datatype Call = Acquire(sem: nat) | Release(sem: nat)

  function Right(i: nat, n: nat): nat
    requires n >= 1
  {
    (i + 1) % n
  }

  /** The order of the spoons: the even take their own first, the odd their neighbour's. */
  function First(i: nat, n: nat): nat
    requires n >= 1
  {
    if i % 2 == 0 then i else Right(i, n)
  }

  function Second(i: nat, n: nat): nat
    requires n >= 1
  {
    if i % 2 == 0 then Right(i, n) else i
  }

  /** The call that philosopher i makes at this place; the last place leads back to place 2. */
  function CallAt(i: nat, pc: nat, n: nat): Call
    requires n >= 1
  {
    if pc == 0 then Acquire(n)
    else if pc == 1 then Release(n)
    else if pc == 2 then Acquire(First(i, n))
    else if pc == 3 then Acquire(Second(i, n))
    else if pc == 4 then Acquire(n)
    else if pc == 5 then Release(n)
    else if pc == 6 then Release(Right(i, n))
    else if pc == 7 then Release(i)
    else if pc == 8 then Acquire(n)
    else Release(n)
  }

  function After(pc: nat): nat { if pc == 9 then 2 else pc + 1 }

  // ---------------------------------------------------------------- steps

  /** wakeup: everyone asleep on semaphore k wakes. */
  function WakeAll(t: Table, k: nat): (r: seq<Phil>)
    requires t.N() >= 1
    ensures |r| == t.N()
  {
    seq<Phil>(t.N(), i requires 0 <= i < t.N() =>
      if t.phils[i].asleep && CallAt(i, t.phils[i].pc, t.N()) == Acquire(k) then t.phils[i].(asleep := false)
      else t.phils[i])
  }

  /** Philosopher i, awake, makes its next call, or the next turn of the loop in sem_acquire. */
  function Next(t: Table, i: nat): Table
    requires Shaped(t) && i < t.N() && !t.phils[i].asleep
  {
    var x := t.phils[i];
    match CallAt(i, x.pc, t.N())
    case Acquire(k) =>
      if t.sems[k].val > 0 then
        Table(t.phils[i := Phil(After(x.pc), false)], t.sems[k := Sem(t.sems[k].val - 1, k)])
      else
        t.(phils := t.phils[i := x.(asleep := true)])
    case Release(k) =>
      Table(WakeAll(t, k)[i := Phil(After(x.pc), false)], t.sems[k := Sem(t.sems[k].val + 1, -1)])
  }

  predicate Shaped(t: Table) {
    && t.N() >= 2 && |t.sems| == t.N() + 1
    && forall i :: 0 <= i < t.N() ==> t.phils[i].pc < PLACES
  }

  // ---------------------------------------------------------------- who holds what

  /** Philosopher i, at this place, has taken semaphore k and not given it back. */
  predicate Holds(i: nat, pc: nat, k: nat, n: nat)
    requires n >= 1
  {
    || (k == n && pc in {1, 5, 9})
    || (k < n && k == First(i, n) && pc == 3)
    || (k < n && k == Right(i, n) && pc in {4, 5, 6})
    || (k < n && k == i && pc in {4, 5, 6, 7})
  }

  predicate HeldBy(t: Table, i: nat, k: nat)
    requires t.N() >= 1 && i < t.N()
  {
    Holds(i, t.phils[i].pc, k, t.N())
  }

  /** Semaphore k's value and its holders add up to one. */
  ghost predicate OneHolder(t: Table, k: nat)
    requires Shaped(t) && k <= t.N()
  {
    && 0 <= t.sems[k].val <= 1 && t.sems[k].owner == (if t.sems[k].val == 0 then k else -1)
    && (forall i, j :: 0 <= i < t.N() && 0 <= j < t.N() && HeldBy(t, i, k) && HeldBy(t, j, k) ==> i == j)
    && (t.sems[k].val == 1 <==> forall i :: 0 <= i < t.N() ==> !HeldBy(t, i, k))
  }

  /** A sleeper is in sem_acquire on a semaphore that is taken. */
  predicate SleeperOk(t: Table, i: nat)
    requires Shaped(t) && i < t.N()
  {
    t.phils[i].asleep ==>
      CallAt(i, t.phils[i].pc, t.N()).Acquire? && t.sems[CallAt(i, t.phils[i].pc, t.N()).sem].val == 0
  }

  ghost predicate Inv(t: Table) {
    && Shaped(t)
    && (forall k {:trigger OneHolder(t, k)} :: 0 <= k <= t.N() ==> OneHolder(t, k))
    && forall i {:trigger SleeperOk(t, i)} :: 0 <= i < t.N() ==> SleeperOk(t, i)
  }

  /** sem_init of every semaphore to 1, everyone at the start. */
  predicate Start(t: Table) {
    && Shaped(t) && (forall i :: 0 <= i < t.N() ==> t.phils[i] == Phil(0, false))
    && forall k :: 0 <= k <= t.N() ==> t.sems[k] == Sem(1, -1)
  }

  lemma StartOk(t: Table)
    requires Start(t)
    ensures Inv(t)
  {
    forall k | 0 <= k <= t.N() ensures OneHolder(t, k) {
      assert forall i :: 0 <= i < t.N() ==> !HeldBy(t, i, k);
    }
    forall i | 0 <= i < t.N() ensures SleeperOk(t, i) { }
  }

  // ---------------------------------------------------------------- every step keeps it

  lemma RightBasics(i: nat, n: nat)
    requires n >= 2 && i < n
    ensures Right(i, n) < n && Right(i, n) != i && Right(i, n) == if i + 1 == n then 0 else i + 1
  {
  }

  /** A call takes or gives back its semaphore and no other. */
  lemma CallHolds(i: nat, pc: nat, k: nat, n: nat)
    requires n >= 2 && i < n && pc < PLACES && k <= n
    ensures match CallAt(i, pc, n)
      case Acquire(s) => s <= n && (Holds(i, After(pc), k, n) <==> Holds(i, pc, k, n) || k == s) && !Holds(i, pc, s, n)
      case Release(s) => s <= n && (Holds(i, After(pc), k, n) <==> Holds(i, pc, k, n) && k != s) && Holds(i, pc, s, n)
  {
    RightBasics(i, n);
  }

  lemma HoldersKept(t: Table, t': Table, i: nat, k: nat)
    requires Shaped(t) && Shaped(t') && t.N() == t'.N() && i < t.N() && k <= t.N() && OneHolder(t, k)
    requires t'.sems[k] == t.sems[k]
    requires forall j :: 0 <= j < t.N() ==> HeldBy(t', j, k) == HeldBy(t, j, k)
    ensures OneHolder(t', k)
  {
  }

  lemma AcquireHeld(t: Table, i: nat, k: nat, j: nat)
    requires Shaped(t) && i < t.N() && !t.phils[i].asleep && CallAt(i, t.phils[i].pc, t.N()).Acquire?
    requires k <= t.N() && j < t.N()
    ensures var s := CallAt(i, t.phils[i].pc, t.N()).sem;
      && s <= t.N() && !HeldBy(t, i, s)
      && (HeldBy(Next(t, i), j, k) <==> HeldBy(t, j, k) || (j == i && k == s && t.sems[s].val > 0))
  {
    CallHolds(i, t.phils[i].pc, k, t.N());
  }

  lemma AcquireOne(t: Table, i: nat, k: nat)
    requires Inv(t) && i < t.N() && !t.phils[i].asleep && CallAt(i, t.phils[i].pc, t.N()).Acquire? && k <= t.N()
    ensures Shaped(Next(t, i)) && OneHolder(Next(t, i), k)
  {
    var t', s := Next(t, i), CallAt(i, t.phils[i].pc, t.N()).sem;
    assert OneHolder(t, k);
    forall j | 0 <= j < t.N()
      ensures HeldBy(t', j, k) <==> HeldBy(t, j, k) || (j == i && k == s && t.sems[s].val > 0)
    {
      AcquireHeld(t, i, k, j);
    }
    if k == s && t.sems[s].val > 0 {
      assert HeldBy(t', i, k);
    } else {
      HoldersKept(t, t', i, k);
    }
  }

  lemma AcquireKeeps(t: Table, i: nat)
    requires Inv(t) && i < t.N() && !t.phils[i].asleep && CallAt(i, t.phils[i].pc, t.N()).Acquire?
    ensures Inv(Next(t, i))
  {
    var t', s := Next(t, i), CallAt(i, t.phils[i].pc, t.N()).sem;
    CallHolds(i, t.phils[i].pc, s, t.N());
    assert OneHolder(t, s);
    forall k | 0 <= k <= t.N() ensures OneHolder(t', k) { AcquireOne(t, i, k); }
    forall j | 0 <= j < t.N() ensures SleeperOk(t', j) { assert SleeperOk(t, j); }
  }

  lemma ReleaseOne(t: Table, i: nat, k: nat)
    requires Inv(t) && i < t.N() && !t.phils[i].asleep && CallAt(i, t.phils[i].pc, t.N()).Release? && k <= t.N()
    ensures Shaped(Next(t, i)) && OneHolder(Next(t, i), k)
  {
    var t', s, n := Next(t, i), CallAt(i, t.phils[i].pc, t.N()).sem, t.N();
    CallHolds(i, t.phils[i].pc, s, n);
    CallHolds(i, t.phils[i].pc, k, n);
    assert OneHolder(t, s) && HeldBy(t, i, s) && OneHolder(t, k);
    forall j | 0 <= j < n && j != i ensures HeldBy(t', j, k) == HeldBy(t, j, k) { }
    if k != s { HoldersKept(t, t', i, k); }
  }

  lemma ReleaseKeeps(t: Table, i: nat)
    requires Inv(t) && i < t.N() && !t.phils[i].asleep && CallAt(i, t.phils[i].pc, t.N()).Release?
    ensures Inv(Next(t, i))
  {
    var t', s := Next(t, i), CallAt(i, t.phils[i].pc, t.N()).sem;
    CallHolds(i, t.phils[i].pc, s, t.N());
    assert OneHolder(t, s);
    forall k | 0 <= k <= t.N() ensures OneHolder(t', k) { ReleaseOne(t, i, k); }
    forall j | 0 <= j < t.N() ensures SleeperOk(t', j) { assert SleeperOk(t, j); }
  }

  // ---------------------------------------------------------------- runs

  /** A run is the order in which philosophers, awake at their turn, make their calls. */
  ghost predicate Possible(t: Table, who: seq<nat>)
    requires Shaped(t)
    decreases |who|
  {
    who == [] || (
      && who[0] < t.N() && !t.phils[who[0]].asleep && Shaped(Next(t, who[0]))
      && Possible(Next(t, who[0]), who[1..])
    )
  }

  ghost function Run(t: Table, who: seq<nat>): Table
    requires Shaped(t) && Possible(t, who)
    decreases |who|
  {
    if who == [] then t else Run(Next(t, who[0]), who[1..])
  }

  lemma {:induction false} RunKeeps(t: Table, who: seq<nat>)
    requires Inv(t) && Possible(t, who)
    ensures Inv(Run(t, who))
    decreases |who|
  {
    if who != [] {
      if CallAt(who[0], t.phils[who[0]].pc, t.N()).Acquire? {
        AcquireKeeps(t, who[0]);
      } else {
        ReleaseKeeps(t, who[0]);
      }
      RunKeeps(Next(t, who[0]), who[1..]);
    }
  }

  /** In this run nobody gives semaphore k back. */
  ghost predicate Kept(t: Table, who: seq<nat>, k: nat)
    requires Shaped(t) && Possible(t, who)
    decreases |who|
  {
    who == [] || (CallAt(who[0], t.phils[who[0]].pc, t.N()) != Release(k) && Kept(Next(t, who[0]), who[1..], k))
  }

  /** Whoever sleeps on a semaphore sleeps, at the same place, until somebody gives back that semaphore; and no
      longer. */
  lemma {:induction false} SleepsUntilGivenBack(t: Table, who: seq<nat>, j: nat, k: nat, i: nat)
    requires Shaped(t) && Possible(t, who) && Kept(t, who, k) && j < t.N() && i < t.N()
    requires t.phils[j].asleep && CallAt(j, t.phils[j].pc, t.N()) == Acquire(k)
    ensures Shaped(Run(t, who)) && Run(t, who).N() == t.N() && Run(t, who).phils[j] == t.phils[j]
    ensures var u := Run(t, who); !u.phils[i].asleep ==>
      |Next(u, i).phils| == t.N()
      && Next(u, i).phils[j] == u.phils[j].(asleep := CallAt(i, u.phils[i].pc, t.N()) != Release(k))
    decreases |who|
  {
    if who != [] {
      SleepsUntilGivenBack(Next(t, who[0]), who[1..], j, k, i);
    }
  }

  // ---------------------------------------------------------------- no deadlock

  /** Philosopher i is awake and its call goes through. */
  predicate CanGo(t: Table, i: nat)
    requires Shaped(t) && i < t.N()
  {
    !t.phils[i].asleep && match CallAt(i, t.phils[i].pc, t.N())
                          case Acquire(k) => k <= t.N() && t.sems[k].val > 0
                          case Release(_) => true
  }

  /** In the spoons' order, the second spoon of an odd philosopher is nobody's first, and that of an even one is the
      first of nobody but philosopher 0. */
  lemma SecondIsNobodysFirst(i: nat, j: nat, n: nat)
    requires n >= 2 && i < n && j < n && First(j, n) == Second(i, n)
    ensures i % 2 == 0 && i == n - 1 && j == 0
  {
    RightBasics(i, n);
    RightBasics(j, n);
  }

  /** A taken semaphore has a holder. */
  lemma Holder(t: Table, k: nat) returns (j: nat)
    requires Inv(t) && k <= t.N() && t.sems[k].val == 0
    ensures j < t.N() && HeldBy(t, j, k)
  {
    assert OneHolder(t, k);
    j :| 0 <= j < t.N() && HeldBy(t, j, k);
  }

  /** Somebody can always go on: whoever prints; else whoever is not waiting for spoons; else one with its first
      spoon. */
  lemma SomebodyCanGo(t: Table) returns (i: nat)
    requires Inv(t)
    ensures i < t.N() && CanGo(t, i)
  {
    var n := t.N();
    if j :| 0 <= j < n && !(t.phils[j].pc == 2 || t.phils[j].pc == 3) {
      i := NotAtTheSpoons(t, j);
    } else if j :| 0 <= j < n && t.phils[j].pc == 3 {
      i := WithOneSpoon(t, j);
    } else {
      i := 0;
      assert OneHolder(t, First(0, n)) && SleeperOk(t, 0);
    }
  }

  lemma NotAtTheSpoons(t: Table, j: nat) returns (i: nat)
    requires Inv(t) && j < t.N() && t.phils[j].pc != 2 && t.phils[j].pc != 3
    ensures i < t.N() && CanGo(t, i)
  {
    i := j;
    assert SleeperOk(t, j);
    if CallAt(j, t.phils[j].pc, t.N()).Acquire? && t.sems[t.N()].val == 0 {
      i := Holder(t, t.N());
      assert SleeperOk(t, i);
    } else {
      assert OneHolder(t, t.N());
    }
  }

  lemma WithOneSpoon(t: Table, j: nat) returns (i: nat)
    requires Inv(t) && j < t.N() && t.phils[j].pc == 3
    requires forall l :: 0 <= l < t.N() ==> t.phils[l].pc == 2 || t.phils[l].pc == 3
    ensures i < t.N() && CanGo(t, i)
  {
    var n := t.N();
    RightBasics(j, n);
    i := j;
    assert OneHolder(t, Second(j, n)) && SleeperOk(t, j);
    if t.sems[Second(j, n)].val == 0 {
      i := Holder(t, Second(j, n));
      SecondIsNobodysFirst(j, i, n);
      assert OneHolder(t, Second(i, n)) && SleeperOk(t, i);
      if t.sems[Second(i, n)].val == 0 {
        var l := Holder(t, Second(i, n));
        SecondIsNobodysFirst(i, l, n);
      }
    }
  }

  /** In every run of any number of philosophers from two on: no spoon is in two hands, a semaphore's value and its
      holders make one, sleepers sleep on taken semaphores, and somebody can go on. */
  lemma {:induction false} Dinner(t0: Table, who: seq<nat>)
    requires Start(t0) && Possible(t0, who)
    ensures var t := Run(t0, who);
      && Inv(t)
      && (forall k, i, j :: 0 <= k <= t.N() && 0 <= i < j < t.N() ==> !(HeldBy(t, i, k) && HeldBy(t, j, k)))
      && (forall i, j :: 0 <= i < t.N() && 0 <= j < t.N() && j == (i + 1) % t.N() ==>
            !(t.phils[i].pc == 5 && t.phils[j].pc == 5))
      && exists i :: 0 <= i < t.N() && CanGo(t, i)
  {
    StartOk(t0);
    RunKeeps(t0, who);
    var t := Run(t0, who);
    forall k, i, j | 0 <= k <= t.N() && 0 <= i < j < t.N() ensures !(HeldBy(t, i, k) && HeldBy(t, j, k)) {
      assert OneHolder(t, k);
    }
    forall i, j | 0 <= i < t.N() && 0 <= j < t.N() && j == (i + 1) % t.N()
      ensures !(t.phils[i].pc == 5 && t.phils[j].pc == 5)
    {
      RightBasics(i, t.N());
      assert OneHolder(t, j);
      assert (t.phils[i].pc == 5 ==> HeldBy(t, i, j)) && (t.phils[j].pc == 5 ==> HeldBy(t, j, j));
    }
    var i := SomebodyCanGo(t);
  }

  // ---------------------------------------------------------------- everybody can eat

  /** How many calls a philosopher at this place is from having given back all it has; 0 if it has nothing. */
  function Dist(pc: nat): nat {
    if pc == 3 then 5 else if pc == 4 then 4 else if pc == 5 then 3 else if pc == 6 then 2
    else if pc in {1, 7, 9} then 1 else 0
  }

  function DistAll(ps: seq<Phil>): nat { if ps == [] then 0 else Dist(ps[0].pc) + DistAll(ps[1..]) }

  lemma {:induction false} DistUpdate(ps: seq<Phil>, qs: seq<Phil>, i: nat)
    requires |ps| == |qs| && i < |ps| && forall j :: 0 <= j < |ps| && j != i ==> qs[j].pc == ps[j].pc
    ensures DistAll(qs) + Dist(ps[i].pc) == DistAll(ps) + Dist(qs[i].pc)
    decreases |ps|
  {
    if i == 0 {
      DistSame(ps[1..], qs[1..]);
    } else {
      DistUpdate(ps[1..], qs[1..], i - 1);
    }
  }

  lemma {:induction false} DistSame(ps: seq<Phil>, qs: seq<Phil>)
    requires |ps| == |qs| && forall j :: 0 <= j < |ps| ==> qs[j].pc == ps[j].pc
    ensures DistAll(qs) == DistAll(ps)
    decreases |ps|
  {
    if ps != [] { DistSame(ps[1..], qs[1..]); }
  }

  lemma {:induction false} DistOne(ps: seq<Phil>, i: nat)
    requires i < |ps|
    ensures Dist(ps[i].pc) <= DistAll(ps)
    decreases |ps|
  {
    if i > 0 { DistOne(ps[1..], i - 1); }
  }

  lemma {:induction false} DistSomebody(ps: seq<Phil>) returns (i: nat)
    requires DistAll(ps) > 0
    ensures i < |ps| && Dist(ps[i].pc) > 0
    decreases |ps|
  {
    if Dist(ps[0].pc) > 0 {
      i := 0;
    } else {
      var j := DistSomebody(ps[1..]);
      i := j + 1;
    }
  }

  /** Whoever holds a semaphore is on the way to giving it back. */
  lemma HolderIsOnItsWay(i: nat, pc: nat, k: nat, n: nat)
    requires n >= 2 && i < n && pc < PLACES && Holds(i, pc, k, n)
    ensures Dist(pc) > 0
  {
  }

  /** A philosopher with both spoons, or the right to print, gets on, or somebody who prints does. */
  lemma PastTheSpoons(t: Table, j: nat) returns (i: nat)
    requires Inv(t) && j < t.N() && Dist(t.phils[j].pc) > 0 && t.phils[j].pc != 3
    ensures i < t.N() && Dist(t.phils[i].pc) > 0 && CanGo(t, i)
  {
    i := j;
    assert SleeperOk(t, j) && OneHolder(t, t.N());
    if t.phils[j].pc == 4 && t.sems[t.N()].val == 0 {
      i := Holder(t, t.N());
      assert SleeperOk(t, i);
    }
  }

  /** Of those who hold something, somebody can go on. */
  lemma HolderCanGo(t: Table, j: nat) returns (i: nat)
    requires Inv(t) && j < t.N() && Dist(t.phils[j].pc) > 0
    ensures i < t.N() && Dist(t.phils[i].pc) > 0 && CanGo(t, i)
  {
    if t.phils[j].pc != 3 {
      i := PastTheSpoons(t, j);
    } else {
      i := j;
      var k := Second(j, t.N());
      RightBasics(j, t.N());
      assert SleeperOk(t, j) && OneHolder(t, k);
      if t.sems[k].val == 0 {
        var h := Holder(t, k);
        HolderIsOnItsWay(h, t.phils[h].pc, k, t.N());
        if t.phils[h].pc == 3 {
          i := AtTheSeam(t, j, h);
        } else {
          i := PastTheSpoons(t, h);
        }
      }
    }
  }

  /** Two who wait for each other's kind of spoon: the one that is waited for has its second spoon free, or with
      somebody who has both. */
  lemma AtTheSeam(t: Table, j: nat, h: nat) returns (i: nat)
    requires Inv(t) && j < t.N() && h < t.N() && t.phils[h].pc == 3 && First(h, t.N()) == Second(j, t.N())
    ensures i < t.N() && Dist(t.phils[i].pc) > 0 && CanGo(t, i)
  {
    var k := Second(h, t.N());
    SecondIsNobodysFirst(j, h, t.N());
    RightBasics(h, t.N());
    i := h;
    assert SleeperOk(t, h) && OneHolder(t, k);
    if t.sems[k].val == 0 {
      var l := Holder(t, k);
      HolderIsOnItsWay(l, t.phils[l].pc, k, t.N());
      if t.phils[l].pc == 3 { SecondIsNobodysFirst(h, l, t.N()); }
      i := PastTheSpoons(t, l);
    }
  }

  lemma StepKeeps(t: Table, i: nat)
    requires Inv(t) && i < t.N() && !t.phils[i].asleep
    ensures Inv(Next(t, i)) && Next(t, i).N() == t.N()
  {
    if CallAt(i, t.phils[i].pc, t.N()).Acquire? { AcquireKeeps(t, i); } else { ReleaseKeeps(t, i); }
  }

  /** A call that goes through takes philosopher i one place on, and nobody else anywhere. */
  lemma GoneOn(t: Table, i: nat)
    requires Inv(t) && i < t.N() && CanGo(t, i)
    ensures var t' := Next(t, i);
      && t'.N() == t.N() && t'.phils[i] == Phil(After(t.phils[i].pc), false)
      && forall j :: 0 <= j < t.N() && j != i ==> t'.phils[j].pc == t.phils[j].pc
  {
    CallHolds(i, t.phils[i].pc, 0, t.N());
  }

  lemma {:induction false} RunBoth(t: Table, who: seq<nat>, more: seq<nat>)
    requires Shaped(t) && Possible(t, who) && Shaped(Run(t, who)) && Possible(Run(t, who), more)
    ensures Possible(t, who + more) && Run(t, who + more) == Run(Run(t, who), more)
    decreases |who|
  {
    if who == [] {
      assert who + more == more;
    } else {
      assert (who + more)[1..] == who[1..] + more;
      RunBoth(Next(t, who[0]), who[1..], more);
    }
  }

  lemma RunOne(t: Table, i: nat)
    requires Inv(t) && i < t.N() && !t.phils[i].asleep
    ensures Possible(t, [i]) && Run(t, [i]) == Next(t, i) && Inv(Next(t, i))
  {
    StepKeeps(t, i);
    assert [i][1..] == [];
  }

  /** Everybody can give back what they hold. */
  lemma {:induction false} Settle(t: Table) returns (who: seq<nat>)
    requires Inv(t)
    ensures Possible(t, who) && Inv(Run(t, who)) && Run(t, who).N() == t.N() && DistAll(Run(t, who).phils) == 0
    decreases DistAll(t.phils)
  {
    if DistAll(t.phils) == 0 {
      who := [];
    } else {
      var j := DistSomebody(t.phils);
      var i := HolderCanGo(t, j);
      GoneOn(t, i);
      RunOne(t, i);
      DistUpdate(t.phils, Next(t, i).phils, i);
      var rest := Settle(Next(t, i));
      RunBoth(t, [i], rest);
      who := [i] + rest;
    }
  }

  /** Nobody but i holds anything, and nobody else is asleep. */
  ghost predicate Alone(t: Table, i: nat) {
    Inv(t) && i < t.N() && forall j :: 0 <= j < t.N() && j != i ==> Dist(t.phils[j].pc) == 0 && !t.phils[j].asleep
  }

  /** Then i's next call goes through and wakes nobody. */
  lemma OwnCall(t: Table, i: nat)
    requires Alone(t, i)
    ensures CanGo(t, i) && Alone(Next(t, i), i)
    ensures Next(t, i).phils == t.phils[i := Phil(After(t.phils[i].pc), false)]
  {
    var k, n := CallAt(i, t.phils[i].pc, t.N()).sem, t.N();
    CallHolds(i, t.phils[i].pc, k, n);
    assert SleeperOk(t, i) && OneHolder(t, k);
    if t.sems[k].val == 0 {
      var h := Holder(t, k);
      HolderIsOnItsWay(h, t.phils[h].pc, k, n);
    }
    assert CanGo(t, i);
    StepKeeps(t, i);
    GoneOn(t, i);
    assert Next(t, i).phils == t.phils[i := Phil(After(t.phils[i].pc), false)];
  }

  function Places(pc: nat, m: nat): nat { if m == 0 then pc else After(Places(pc, m - 1)) }

  lemma {:induction false} PlacesFirst(pc: nat, m: nat)
    requires m > 0
    ensures Places(pc, m) == Places(After(pc), m - 1)
  {
    if m > 1 { PlacesFirst(pc, m - 1); }
  }

  /** m calls of i's own, one after the other. */
  lemma {:induction false} OwnCalls(t: Table, i: nat, m: nat) returns (who: seq<nat>)
    requires Alone(t, i)
    ensures |who| == m && (forall k :: 0 <= k < m ==> who[k] == i) && Possible(t, who) && Alone(Run(t, who), i)
    ensures Run(t, who).phils == if m == 0 then t.phils else t.phils[i := Phil(Places(t.phils[i].pc, m), false)]
    decreases m
  {
    if m == 0 {
      who := [];
    } else {
      OwnCall(t, i);
      RunOne(t, i);
      var rest := OwnCalls(Next(t, i), i, m - 1);
      RunBoth(t, [i], rest);
      who := [i] + rest;
      PlacesFirst(t.phils[i].pc, m);
    }
  }

  lemma NothingHeld(t: Table, i: nat)
    requires Inv(t) && i < t.N() && DistAll(t.phils) == 0
    ensures Alone(t, i) && t.phils[i].pc in {0, 2, 8} && !t.phils[i].asleep
    ensures forall k :: 0 <= k <= t.N() ==> t.sems[k] == Sem(1, -1)
  {
    forall k | 0 <= k <= t.N() ensures t.sems[k] == Sem(1, -1) {
      assert OneHolder(t, k);
      if t.sems[k].val == 0 {
        var h := Holder(t, k);
        HolderIsOnItsWay(h, t.phils[h].pc, k, t.N());
        DistOne(t.phils, h);
      }
    }
    forall j | 0 <= j < t.N() ensures Dist(t.phils[j].pc) == 0 && !t.phils[j].asleep {
      DistOne(t.phils, j);
      assert SleeperOk(t, j);
      if t.phils[j].asleep { CallHolds(j, t.phils[j].pc, 0, t.N()); }
    }
    DistOne(t.phils, i);
  }

  /** Nobody is ever shut out: from every state of every run some continuation brings philosopher i to eat, with the
      spoons i and i + 1 in its hands. */
  lemma EverybodyCanEat(t: Table, i: nat) returns (who: seq<nat>)
    requires Inv(t) && i < t.N()
    ensures Possible(t, who) && Run(t, who).N() == t.N() && Run(t, who).phils[i].pc == 5
    ensures Inv(Run(t, who)) && HeldBy(Run(t, who), i, i) && HeldBy(Run(t, who), i, (i + 1) % t.N())
  {
    var first := Settle(t);
    var u := Run(t, first);
    NothingHeld(u, i);
    var pc := u.phils[i].pc;
    var m := if pc == 0 then 5 else if pc == 2 then 3 else 5;
    assert Places(pc, m) == 5 by { Path(pc, m); }
    var own := OwnCalls(u, i, m);
    RunBoth(t, first, own);
    who := first + own;
    RightBasics(i, t.N());
  }

  /** Where a philosopher's calls lead. */
  lemma Path(pc: nat, m: nat)
    ensures pc == 0 && m == 5 ==> Places(pc, m) == 5
    ensures pc == 2 && m == 3 ==> Places(pc, m) == 5
    ensures pc == 2 && m == 8 ==> Places(pc, m) == 2
    ensures pc == 8 && m == 5 ==> Places(pc, m) == 5
  {
    if pc == 0 { assert Places(0, 2) == 2 && Places(0, 4) == 4; }
    if pc == 2 { assert Places(2, 2) == 4 && Places(2, 4) == 6 && Places(2, 6) == 8 && Places(2, 7) == 9; }
    if pc == 8 { assert Places(8, 2) == 2 && Places(8, 4) == 4; }
  }

  /** When nobody holds anything, a philosopher about to take its spoons eats after three calls of its own and is back
      where it was after eight, with everything given back. */
  lemma Round(t: Table, i: nat) returns (who: seq<nat>)
    requires Inv(t) && i < t.N() && DistAll(t.phils) == 0 && t.phils[i].pc == 2
    ensures |who| == 8 && (forall k :: 0 <= k < 8 ==> who[k] == i) && Possible(t, who) && Run(t, who) == t
    ensures Possible(t, who[..3]) && Run(t, who[..3]).phils == t.phils[i := Phil(5, false)]
  {
    NothingHeld(t, i);
    who := OwnCalls(t, i, 8);
    var eat := OwnCalls(t, i, 3);
    assert eat == who[..3];
    Path(2, 3);
    Path(2, 8);
    var u := Run(t, who);
    assert u.phils == t.phils;
    NothingHeld(u, i);
    assert u.sems == t.sems;
  }
}
