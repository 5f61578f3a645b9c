/** The free list of section 8.7 of "The C Programming Language" as values: memory in header-sized units, the holes in
    it by address, and the allocations. Unit 0 is the empty base of the list, below everything else. */
module FreeList {
  datatype Header = Header(ptr: nat, size: nat)

  /** A stretch of units, the first of them its header. */
  datatype Run = Run(at: nat, size: nat) {
    predicate EndsBy(u: nat) { at + size <= u }

    /** There is room between this run and r. */
    predicate WellBefore(r: Run) { at + size < r.at }

    predicate Before(r: Run) { EndsBy(r.at) }

    predicate Has(u: nat) { at <= u < at + size }
  }

  // ---------------------------------------------------------------- the free list as a value

  /** The base first, then holes by address, with at least one unit between neighbours: nothing is left to coalesce. */
  predicate Ordered(hs: seq<Run>) {
    && |hs| >= 1 && hs[0] == Run(0, 0)
    && (forall i :: 1 <= i < |hs| ==> hs[i].size >= 1)
    && forall i, j {:trigger hs[i].WellBefore(hs[j])} :: 0 <= i < j < |hs| ==> hs[i].WellBefore(hs[j])
  }

  /** Allocations by address, without overlap. */
  predicate Separate(us: seq<Run>) {
    && (forall i :: 0 <= i < |us| ==> us[i].at >= 1 && us[i].size >= 1)
    && forall i, j {:trigger us[i].Before(us[j])} :: 0 <= i < j < |us| ==> us[i].Before(us[j])
  }

  predicate Disjoint(r: Run, s: Run) {
    r.EndsBy(s.at) || s.EndsBy(r.at)
  }

  /** No hole meets an allocation. */
  predicate Apart(hs: seq<Run>, us: seq<Run>) {
    forall i, j {:trigger Disjoint(hs[i], us[j])} :: 0 <= i < |hs| && 0 <= j < |us| ==> Disjoint(hs[i], us[j])
  }

  /** The units of the runs from number i on. */
  function Sum(rs: seq<Run>, i: nat): nat
    requires i <= |rs|
    decreases |rs| - i
  {
    if i == |rs| then 0 else rs[i].size + Sum(rs, i + 1)
  }

  function Total(rs: seq<Run>): nat { Sum(rs, 0) }

  /** The hole after hole i, the base after the last. */
  function Next(hs: seq<Run>, i: nat): nat {
    if i + 1 < |hs| then hs[i + 1].at else 0
  }

  /** The header of hole i has its size and points to the next hole. */
  predicate LinkedAt(mem: seq<Header>, hs: seq<Run>, i: nat)
    requires i < |hs|
  {
    hs[i].at < |mem| && hs[i].EndsBy(|mem|) && mem[hs[i].at] == Header(Next(hs, i), hs[i].size)
  }

  /** Memory holds the list. */
  predicate Linked(mem: seq<Header>, hs: seq<Run>) {
    forall i {:trigger LinkedAt(mem, hs, i)} :: 0 <= i < |hs| ==> LinkedAt(mem, hs, i)
  }

  /** Memory holds the allocations: each header has its size. */
  predicate Headed(mem: seq<Header>, us: seq<Run>) {
    forall j :: 0 <= j < |us| ==> us[j].EndsBy(|mem|) && (us[j].size >= 1 ==> mem[us[j].at].size == us[j].size)
  }

  /** Memory, its holes and its allocations. */
  datatype Store = Store(mem: seq<Header>, holes: seq<Run>, used: seq<Run>)

  /** The list is circular and address-ordered with nothing to coalesce, and meets no allocation. */
  predicate Sound(s: Store) {
    match s case Store(mem, hs, us) =>
      Ordered(hs) && Linked(mem, hs) && Separate(us) && Headed(mem, us) && Apart(hs, us)
  }

  /** No unit of these allocations differs. */
  predicate Untouched(m: seq<Header>, m': seq<Header>, us: seq<Run>) {
    |m| <= |m'| && forall j, u :: 0 <= j < |us| && 0 <= u < |m| && us[j].Has(u) ==> m'[u] == m[u]
  }

  // ---------------------------------------------------------------- one run less, one run more

  /** The index that an element had before element j went. */
  function Old(j: nat, k: nat): nat { if k < j then k else k + 1 }

  function Without(us: seq<Run>, j: nat): seq<Run>
    requires j < |us|
  {
    seq<Run>(|us| - 1, k requires 0 <= k < |us| - 1 => us[Old(j, k)])
  }

  lemma {:induction false} WithoutSum(us: seq<Run>, j: nat, k: nat)
    requires j < |us| && k < |us|
    ensures Sum(Without(us, j), k) == if k <= j then Sum(us, k) - us[j].size else Sum(us, k + 1)
    decreases |us| - k
  {
    if k + 1 < |us| {
      WithoutSum(us, j, k + 1);
      assert Without(us, j)[k] == us[Old(j, k)];
    }
  }

  /** What freeing an allocation leaves of the others. */
  lemma {:induction false} OneLess(hs: seq<Run>, us: seq<Run>, j: nat)
    requires Separate(us) && Apart(hs, us) && j < |us|
    ensures Separate(Without(us, j)) && Apart(hs, Without(us, j)) && Total(Without(us, j)) + us[j].size == Total(us)
    ensures forall k :: 0 <= k < |Without(us, j)| ==> Disjoint(us[j], Without(us, j)[k])
  {
    var w := Without(us, j);
    forall k | 0 <= k < |w| ensures w[k] == us[Old(j, k)] && Disjoint(us[j], w[k]) {
      assert us[j].Before(us[Old(j, k)]) || us[Old(j, k)].Before(us[j]);
    }
    forall k, l | 0 <= k < l < |w| ensures w[k].Before(w[l]) {
      assert us[Old(j, k)].Before(us[Old(j, l)]);
    }
    forall i, k | 0 <= i < |hs| && 0 <= k < |w| ensures Disjoint(hs[i], w[k]) {
      assert Disjoint(hs[i], us[Old(j, k)]);
    }
    WithoutSum(us, j, 0);
  }

  /** The first allocation above an address, counting from k. */
  ghost function Rank(us: seq<Run>, at: nat, k: nat): (i: nat)
    requires k <= |us|
    ensures k <= i <= |us| && (i < |us| ==> us[i].at > at)
    ensures forall l :: k <= l < i ==> us[l].at <= at
    decreases |us| - k
  {
    if k == |us| || us[k].at > at then k else Rank(us, at, k + 1)
  }

  /** The allocations with one more at its place. */
  ghost function With(us: seq<Run>, r: Run): seq<Run> {
    var k := Rank(us, r.at, 0);
    seq<Run>(|us| + 1, i requires 0 <= i <= |us| => if i < k then us[i] else if i == k then r else us[i - 1])
  }

  lemma {:induction false} WithAt(us: seq<Run>, r: Run, i: nat)
    requires i < |With(us, r)|
    ensures |With(us, r)| == |us| + 1
    ensures var k := Rank(us, r.at, 0); With(us, r)[i] == if i < k then us[i] else if i == k then r else us[i - 1]
  {
  }

  lemma {:induction false} WithSum(us: seq<Run>, r: Run, i: nat)
    requires i <= |us| + 1 == |With(us, r)|
    ensures Sum(With(us, r), i) ==
      if i <= Rank(us, r.at, 0) then Sum(us, i) + r.size else Sum(us, i - 1)
    decreases |us| + 1 - i
  {
    if i <= |us| {
      WithAt(us, r, i);
      WithSum(us, r, i + 1);
    }
  }

  lemma {:induction false} WithSeparate(us: seq<Run>, r: Run)
    requires Separate(us) && r.at >= 1 && r.size >= 1 && forall j :: 0 <= j < |us| ==> Disjoint(r, us[j])
    ensures Separate(With(us, r))
  {
    var w, k := With(us, r), Rank(us, r.at, 0);
    forall i | 0 <= i < |w| ensures w[i].at >= 1 && w[i].size >= 1 { WithAt(us, r, i); }
    forall i, j | 0 <= i < j < |w| ensures w[i].Before(w[j]) {
      WithAt(us, r, i);
      WithAt(us, r, j);
      if i < k && j > k {
        assert us[i].Before(us[j - 1]);
      } else if j < k {
        assert us[i].Before(us[j]);
      } else if i > k {
        assert us[i - 1].Before(us[j - 1]);
      } else if i == k {
        assert Disjoint(r, us[j - 1]);
        if j > k + 1 { assert us[k].Before(us[j - 1]); }
      } else {
        assert Disjoint(r, us[i]);
      }
    }
  }

  lemma {:induction false} WithoutWith(us: seq<Run>, r: Run, j: nat)
    requires j < |With(us, r)| && j == Rank(us, r.at, 0)
    ensures Without(With(us, r), j) == us
  {
    forall i | 0 <= i < |us| ensures Without(With(us, r), j)[i] == us[i] {
      WithAt(us, r, Old(j, i));
    }
  }

  lemma {:induction false} AppendSum(us: seq<Run>, r: Run, i: nat)
    requires i <= |us|
    ensures Sum(us + [r], i) == Sum(us, i) + r.size
    decreases |us| - i
  {
    if i < |us| {
      AppendSum(us, r, i + 1);
    } else {
      assert Sum(us + [r], i + 1) == 0;
    }
  }

  lemma {:induction false} SameHole(hs: seq<Run>, i: nat, j: nat)
    requires Ordered(hs) && i < |hs| && j < |hs|
    ensures hs[i].at == hs[j].at ==> i == j
  {
    assert i < j ==> hs[i].WellBefore(hs[j]);
    assert j < i ==> hs[j].WellBefore(hs[i]);
  }

  // ---------------------------------------------------------------- freeing

  /** Hole t is the last one below the address. */
  predicate Below(hs: seq<Run>, t: nat, at: nat) {
    t < |hs| && hs[t].at < at && forall i :: t < i < |hs| ==> at < hs[i].at
  }

  lemma {:induction false} BelowHere(hs: seq<Run>, t: nat, at: nat)
    requires Ordered(hs) && t < |hs| && hs[t].at < at && (t + 1 < |hs| ==> at < hs[t + 1].at)
    ensures Below(hs, t, at)
  {
    forall i | t < i < |hs| ensures at < hs[i].at {
      if i > t + 1 { assert hs[t + 1].WellBefore(hs[i]); }
    }
  }

  lemma {:induction false} BelowUnique(hs: seq<Run>, t: nat, k: nat, at: nat)
    requires Below(hs, t, at) && Below(hs, k, at)
    ensures t == k
  {
  }

  /** The last hole below an address. */
  ghost function Place(hs: seq<Run>, at: nat): (t: nat)
    requires Ordered(hs) && at >= 1 && forall i :: 0 <= i < |hs| ==> hs[i].at != at
    ensures Below(hs, t, at)
  {
    PlaceFrom(hs, at, 0)
  }

  ghost function PlaceFrom(hs: seq<Run>, at: nat, i: nat): (t: nat)
    requires Ordered(hs) && i < |hs| && hs[i].at < at && forall k :: 0 <= k < |hs| ==> hs[k].at != at
    ensures Below(hs, t, at)
    decreases |hs| - i
  {
    if i + 1 < |hs| && hs[i + 1].at < at then PlaceFrom(hs, at, i + 1) else BelowHere(hs, i, at); i
  }

  predicate JoinsUp(hs: seq<Run>, t: nat, r: Run)
    requires t < |hs|
  {
    t + 1 < |hs| && r.at + r.size == hs[t + 1].at
  }

  predicate JoinsDown(hs: seq<Run>, t: nat, r: Run)
    requires t < |hs|
  {
    hs[t].at + hs[t].size == r.at
  }

  /** r, with the hole above it when they touch. */
  function Upward(hs: seq<Run>, t: nat, r: Run): Run
    requires t < |hs|
  {
    if JoinsUp(hs, t, r) then Run(r.at, r.size + hs[t + 1].size) else r
  }

  /** r may be freed after hole t. */
  predicate Fits(hs: seq<Run>, t: nat, r: Run) {
    && Ordered(hs) && Below(hs, t, r.at) && r.size >= 1
    && forall i {:trigger Disjoint(hs[i], r)} :: 0 <= i < |hs| ==> Disjoint(hs[i], r)
  }

  /** How far the holes above r have moved in the list. */
  function Shift(hs: seq<Run>, t: nat, r: Run): int
    requires t < |hs|
  {
    (if JoinsDown(hs, t, r) then 0 else 1) - (if JoinsUp(hs, t, r) then 1 else 0)
  }

  /** The first of the holes above r in the new list. */
  function InsertedFrom(hs: seq<Run>, t: nat, r: Run): nat
    requires t < |hs|
  {
    if JoinsDown(hs, t, r) then t + 1 else t + 2
  }

  /** Hole i when r has been freed after hole t and joined to the holes that touch it. */
  function InsertedAt(hs: seq<Run>, t: nat, r: Run, i: nat): Run
    requires t < |hs| && i < |hs| + Shift(hs, t, r)
  {
    if i < t then hs[i]
    else if i >= InsertedFrom(hs, t, r) then hs[i - Shift(hs, t, r)]
    else if i == t + 1 then Upward(hs, t, r)
    else if JoinsDown(hs, t, r) then Run(hs[t].at, hs[t].size + Upward(hs, t, r).size)
    else hs[t]
  }

  function Inserted(hs: seq<Run>, t: nat, r: Run): (ins: seq<Run>)
    requires t < |hs|
    ensures IsInserted(hs, t, r, ins)
  {
    var n := |hs| + Shift(hs, t, r);
    seq<Run>(n, i requires 0 <= i < n => InsertedAt(hs, t, r, i))
  }

  predicate IsInserted(hs: seq<Run>, t: nat, r: Run, ins: seq<Run>)
    requires t < |hs|
  {
    && |ins| == |hs| + Shift(hs, t, r)
    && forall i {:trigger ins[i]} :: 0 <= i < |ins| ==> ins[i] == InsertedAt(hs, t, r, i)
  }

  /** Freeing adds the units of r to the holes. */
  lemma {:induction false} InsertedSum(hs: seq<Run>, t: nat, r: Run, ins: seq<Run>, i: nat)
    requires t < |hs| && IsInserted(hs, t, r, ins) && i <= |ins|
    ensures i <= t ==> Sum(ins, i) == Sum(hs, i) + r.size
    ensures i == t + 1 < InsertedFrom(hs, t, r) ==> Sum(ins, i) == Sum(hs, t + 1) + r.size
    ensures i >= InsertedFrom(hs, t, r) ==>
      0 <= i - Shift(hs, t, r) <= |hs| && Sum(ins, i) == Sum(hs, i - Shift(hs, t, r))
    decreases |ins| - i
  {
    if i < |ins| {
      InsertedSum(hs, t, r, ins, i + 1);
    }
  }

  /** There is room between r, with the hole it joins, and the holes above. */
  lemma {:induction false} UpwardBefore(hs: seq<Run>, t: nat, r: Run, k: nat)
    requires Fits(hs, t, r) && (if JoinsUp(hs, t, r) then t + 1 else t) < k < |hs|
    ensures Upward(hs, t, r).WellBefore(hs[k])
  {
    assert Disjoint(hs[t + 1], r);
    if k > t + 1 { assert hs[t + 1].WellBefore(hs[k]); }
  }

  lemma {:induction false} BeforeAbove(hs: seq<Run>, t: nat, r: Run, ins: seq<Run>, i: nat, j: nat)
    requires Fits(hs, t, r) && IsInserted(hs, t, r, ins) && i < j < |ins| && j >= InsertedFrom(hs, t, r)
    ensures ins[i].WellBefore(ins[j])
  {
    var s := Shift(hs, t, r);
    if i >= InsertedFrom(hs, t, r) {
      assert hs[i - s].WellBefore(hs[j - s]);
    } else if i <= t && !(i == t && JoinsDown(hs, t, r)) {
      assert hs[i].WellBefore(hs[j - s]);
    } else {
      UpwardBefore(hs, t, r, j - s);
    }
  }

  lemma {:induction false} InsertedPair(hs: seq<Run>, t: nat, r: Run, ins: seq<Run>, i: nat, j: nat)
    requires Fits(hs, t, r) && IsInserted(hs, t, r, ins) && i < j < |ins|
    ensures ins[i].WellBefore(ins[j])
  {
    if j >= InsertedFrom(hs, t, r) {
      BeforeAbove(hs, t, r, ins, i, j);
    } else if j < t {
      assert hs[i].WellBefore(hs[j]);
    } else if i < t {
      assert hs[i].WellBefore(hs[t]);
    } else {
      assert Disjoint(hs[t], r);
    }
  }

  lemma {:induction false} InsertedOrdered(hs: seq<Run>, t: nat, r: Run, ins: seq<Run>)
    requires Fits(hs, t, r) && IsInserted(hs, t, r, ins)
    ensures Ordered(ins)
  {
    forall i, j | 0 <= i < j < |ins| ensures ins[i].WellBefore(ins[j]) {
      InsertedPair(hs, t, r, ins, i, j);
    }
    assert Disjoint(hs[t], r);
  }

  lemma {:induction false} InsertedApart(hs: seq<Run>, t: nat, r: Run, ins: seq<Run>, us: seq<Run>)
    requires Fits(hs, t, r) && Separate(us) && Apart(hs, us) && forall j :: 0 <= j < |us| ==> Disjoint(r, us[j])
    requires IsInserted(hs, t, r, ins)
    ensures Apart(ins, us)
  {
    assert Disjoint(hs[t], r);
    assert t + 1 < |hs| ==> Disjoint(hs[t + 1], r);
    forall i, j | 0 <= i < |ins| && 0 <= j < |us| ensures Disjoint(ins[i], us[j]) {
      assert Disjoint(hs[t], us[j]) && (t + 1 < |hs| ==> Disjoint(hs[t + 1], us[j]));
      if i < t {
        assert Disjoint(hs[i], us[j]);
      } else if i >= InsertedFrom(hs, t, r) {
        assert Disjoint(hs[i - Shift(hs, t, r)], us[j]);
      }
    }
  }

  /** The header that r gets. */
  function FreedHeader(hs: seq<Run>, t: nat, r: Run): Header
    requires t < |hs|
  {
    Header(Next(hs, if JoinsUp(hs, t, r) then t + 1 else t), Upward(hs, t, r).size)
  }

  /** The header that hole t gets. */
  function BelowHeader(hs: seq<Run>, t: nat, r: Run): Header
    requires t < |hs|
  {
    if JoinsDown(hs, t, r) then Header(FreedHeader(hs, t, r).ptr, hs[t].size + FreedHeader(hs, t, r).size)
    else Header(r.at, hs[t].size)
  }

  function FreedMem(mem: seq<Header>, hs: seq<Run>, t: nat, r: Run): seq<Header>
    requires t < |hs| && r.at < |mem| && hs[t].at < |mem|
  {
    mem[r.at := FreedHeader(hs, t, r)][hs[t].at := BelowHeader(hs, t, r)]
  }

  /** A hole that keeps its header and its successor is still linked. */
  lemma {:induction false} StillLinked(mem: seq<Header>, m: seq<Header>, hs: seq<Run>, k: nat, ins: seq<Run>, i: nat)
    requires k < |hs| && i < |ins| && LinkedAt(mem, hs, k) && ins[i] == hs[k] && Next(ins, i) == Next(hs, k)
    requires |m| == |mem| && m[hs[k].at] == mem[hs[k].at]
    ensures LinkedAt(m, ins, i)
  {
  }

  lemma {:induction false} NextKept(hs: seq<Run>, t: nat, r: Run, ins: seq<Run>, i: nat, k: nat)
    requires t < |hs| && IsInserted(hs, t, r, ins) && i < |ins|
    requires (i < t && k == i) || (i >= InsertedFrom(hs, t, r) && k == i - Shift(hs, t, r))
    ensures k < |hs| && ins[i] == hs[k] && Next(ins, i) == Next(hs, k)
  {
  }

  lemma {:induction false} NextHere(hs: seq<Run>, t: nat, r: Run, ins: seq<Run>)
    requires t < |hs| && IsInserted(hs, t, r, ins)
    ensures t < |ins| && ins[t].at == hs[t].at && Header(Next(ins, t), ins[t].size) == BelowHeader(hs, t, r)
    ensures JoinsDown(hs, t, r) ==> ins[t].size == hs[t].size + Upward(hs, t, r).size
    ensures !JoinsDown(hs, t, r) ==> t + 1 < |ins| && ins[t] == hs[t]
    ensures !JoinsDown(hs, t, r) ==> ins[t + 1] == Upward(hs, t, r) && Next(ins, t + 1) == FreedHeader(hs, t, r).ptr
  {
    var from := InsertedFrom(hs, t, r);
    assert from < |ins| ==> ins[from] == hs[from - Shift(hs, t, r)];
  }

  lemma {:induction false} UpwardFits(mem: seq<Header>, hs: seq<Run>, t: nat, r: Run)
    requires Fits(hs, t, r) && Linked(mem, hs) && r.EndsBy(|mem|)
    ensures Upward(hs, t, r).EndsBy(|mem|) && hs[t].at != r.at
  {
    assert Disjoint(hs[t], r);
    if t + 1 < |hs| { assert LinkedAt(mem, hs, t + 1); }
  }

  lemma {:induction false} OtherHole(hs: seq<Run>, t: nat, r: Run, k: nat)
    requires Fits(hs, t, r) && k < |hs| && k != t
    ensures hs[k].at != hs[t].at && hs[k].at != r.at
  {
    if k < t { assert hs[k].WellBefore(hs[t]); } else { assert hs[t].WellBefore(hs[k]); }
  }

  /** The holes with new headers are linked. */
  lemma {:induction false} HereLinked(mem: seq<Header>, hs: seq<Run>, t: nat, r: Run, ins: seq<Run>, i: nat)
    requires t < |hs| && LinkedAt(mem, hs, t) && IsInserted(hs, t, r, ins) && t <= i < InsertedFrom(hs, t, r)
    requires i < |ins|
    requires r.at < |mem| && Upward(hs, t, r).EndsBy(|mem|) && hs[t].at != r.at
    ensures LinkedAt(FreedMem(mem, hs, t, r), ins, i)
  {
    NextHere(hs, t, r, ins);
  }

  /** The others are linked as before. */
  lemma {:induction false} ElsewhereLinked(mem: seq<Header>, hs: seq<Run>, t: nat, r: Run, ins: seq<Run>, i: nat,
                                           k: nat)
    requires t < |hs| && IsInserted(hs, t, r, ins) && i < |ins| && r.at < |mem| && hs[t].at < |mem|
    requires (i < t && k == i) || (i >= InsertedFrom(hs, t, r) && k == i - Shift(hs, t, r))
    requires k < |hs| && LinkedAt(mem, hs, k) && hs[k].at != hs[t].at && hs[k].at != r.at
    ensures LinkedAt(FreedMem(mem, hs, t, r), ins, i)
  {
    NextKept(hs, t, r, ins, i, k);
    StillLinked(mem, FreedMem(mem, hs, t, r), hs, k, ins, i);
  }

  /** Writing these two headers makes memory hold the new list. */
  lemma {:induction false} InsertedLinked(mem: seq<Header>, hs: seq<Run>, t: nat, r: Run, ins: seq<Run>)
    requires Fits(hs, t, r) && Linked(mem, hs) && r.EndsBy(|mem|) && LinkedAt(mem, hs, t) && IsInserted(hs, t, r, ins)
    ensures Linked(FreedMem(mem, hs, t, r), ins)
  {
    var m := FreedMem(mem, hs, t, r);
    forall i | 0 <= i < |ins| ensures LinkedAt(m, ins, i) {
      if i < t || i >= InsertedFrom(hs, t, r) {
        var k := if i < t then i else i - Shift(hs, t, r);
        OtherHole(hs, t, r, k);
        assert LinkedAt(mem, hs, k);
        ElsewhereLinked(mem, hs, t, r, ins, i, k);
      } else {
        UpwardFits(mem, hs, t, r);
        HereLinked(mem, hs, t, r, ins, i);
      }
    }
  }

  /** An allocation fits into the list of holes. */
  lemma {:induction false} FreedFits(hs: seq<Run>, us: seq<Run>, j: nat)
    requires Ordered(hs) && Separate(us) && Apart(hs, us) && j < |us|
    ensures forall i :: 0 <= i < |hs| ==> hs[i].at != us[j].at && Disjoint(hs[i], us[j])
  {
    forall i | 0 <= i < |hs| ensures hs[i].at != us[j].at && Disjoint(hs[i], us[j]) {
      assert Disjoint(hs[i], us[j]);
    }
  }

  /** Writing headers of r and of hole t touches no other allocation. */
  lemma {:induction false} OthersUntouched(mem: seq<Header>, hs: seq<Run>, t: nat, r: Run, us: seq<Run>)
    requires t < |hs| && r.at < |mem| && hs[t].at < |mem| && Separate(us) && Headed(mem, us) && Apart(hs, us)
    requires hs[t].size >= 1 || hs[t].at == 0
    requires r.size >= 1 && forall j :: 0 <= j < |us| ==> Disjoint(r, us[j])
    ensures Untouched(mem, FreedMem(mem, hs, t, r), us) && Headed(FreedMem(mem, hs, t, r), us)
  {
    forall j, u: nat | 0 <= j < |us| && us[j].Has(u) ensures u != r.at && u != hs[t].at {
      assert Disjoint(hs[t], us[j]);
    }
  }

  /** Where r is in the new list. */
  function Home(hs: seq<Run>, t: nat, r: Run): nat
    requires t < |hs|
  {
    if JoinsDown(hs, t, r) then t else t + 1
  }

  /** What free keeps. */
  lemma {:induction false} Freed(mem: seq<Header>, hs: seq<Run>, t: nat, us: seq<Run>, j: nat)
    requires Sound(Store(mem, hs, us)) && j < |us| && Below(hs, t, us[j].at) && LinkedAt(mem, hs, t)
    ensures us[j].EndsBy(|mem|) && Sound(Store(FreedMem(mem, hs, t, us[j]), Inserted(hs, t, us[j]), Without(us, j)))
    ensures Total(Inserted(hs, t, us[j])) + Total(Without(us, j)) == Total(hs) + Total(us)
    ensures Untouched(mem, FreedMem(mem, hs, t, us[j]), Without(us, j))
    ensures t < |Inserted(hs, t, us[j])| && Inserted(hs, t, us[j])[t].at == hs[t].at
    ensures var f := Home(hs, t, us[j]); f < |Inserted(hs, t, us[j])| && Inserted(hs, t, us[j])[f].size >= us[j].size
  {
    var ins := Inserted(hs, t, us[j]);
    FreedFits(hs, us, j);
    OneLess(hs, us, j);
    assert Headed(mem, Without(us, j));
    InsertedOrdered(hs, t, us[j], ins);
    InsertedLinked(mem, hs, t, us[j], ins);
    InsertedApart(hs, t, us[j], ins, Without(us, j));
    InsertedSum(hs, t, us[j], ins, 0);
    OthersUntouched(mem, hs, t, us[j], Without(us, j));
  }

  /** New memory past the end is one more allocation, until it is freed. */
  lemma {:induction false} Grown(mem: seq<Header>, mem': seq<Header>, hs: seq<Run>, us: seq<Run>, r: Run)
    requires Sound(Store(mem, hs, us)) && |mem| <= r.at && r.EndsBy(|mem'|) && r.size >= 1 && |mem| >= 1
    requires (forall u :: 0 <= u < |mem| ==> mem'[u] == mem[u]) && mem'[r.at].size == r.size
    ensures Sound(Store(mem', hs, us + [r])) && Total(us + [r]) == Total(us) + r.size
  {
    forall i | 0 <= i < |hs| ensures LinkedAt(mem', hs, i) { assert LinkedAt(mem, hs, i); }
    forall i, j | 0 <= i < |hs| && 0 <= j <= |us| ensures Disjoint(hs[i], (us + [r])[j]) {
      assert LinkedAt(mem, hs, i);
      if j < |us| { assert Disjoint(hs[i], us[j]); }
    }
    forall i, j | 0 <= i < j <= |us| ensures (us + [r])[i].Before((us + [r])[j]) {
      if j < |us| { assert us[i].Before(us[j]); }
    }
    AppendSum(us, r, 0);
  }

  // ---------------------------------------------------------------- allocating

  /** No hole has n units. */
  ghost predicate NoneFits(hs: seq<Run>, n: nat) {
    forall f :: 0 <= f < |hs| ==> hs[f].size < n
  }

  /** The holes after c, up to i in circular order, are too small. */
  ghost predicate Seen(hs: seq<Run>, c: nat, i: nat, n: nat) {
    if c <= i then forall k :: c < k <= i && k < |hs| ==> hs[k].size < n
    else forall k :: 0 <= k < |hs| && (k <= i || c < k) ==> hs[k].size < n
  }

  /** How many holes are left to see. */
  function Left(hs: seq<Run>, c: nat, i: nat): int {
    if c <= i then |hs| + c - i else c - i
  }

  /** The list without n units from the end of hole f; a hole that is used up leaves the list. */
  function Taken(hs: seq<Run>, f: nat, n: nat): seq<Run>
    requires f < |hs| && n <= hs[f].size
  {
    if hs[f].size == n then Without(hs, f) else hs[f := Run(hs[f].at, hs[f].size - n)]
  }

  /** The n units. */
  function Piece(hs: seq<Run>, f: nat, n: nat): Run
    requires f < |hs| && n <= hs[f].size
  {
    Run(hs[f].at + hs[f].size - n, n)
  }

  /** A hole that is used up is bypassed; another one is shortened, and the piece gets its own header. */
  function TakenMem(mem: seq<Header>, hs: seq<Run>, f: nat, n: nat): seq<Header>
    requires 1 <= f < |hs| && 1 <= n <= hs[f].size && hs[f].EndsBy(|mem|) && hs[f - 1].at < |mem|
  {
    if hs[f].size == n then mem[hs[f - 1].at := mem[hs[f - 1].at].(ptr := Next(hs, f))]
    else
      var m := mem[hs[f].at := mem[hs[f].at].(size := hs[f].size - n)];
      m[Piece(hs, f, n).at := m[Piece(hs, f, n).at].(size := n)]
  }

  /** Hole k of the list after an allocation lies in this hole of the list before. */
  function Source(hs: seq<Run>, f: nat, n: nat, k: nat): nat
    requires f < |hs|
  {
    if hs[f].size == n then Old(f, k) else k
  }

  lemma {:induction false} TakenHole(hs: seq<Run>, f: nat, n: nat, k: nat)
    requires 1 <= f < |hs| && 1 <= n <= hs[f].size && k < |Taken(hs, f, n)|
    ensures var l, r := Source(hs, f, n, k), Taken(hs, f, n)[k];
      && l < |hs| && r.at == hs[l].at && r.size <= hs[l].size
      && (hs[l].size >= 1 ==> r.size >= 1) && (k == 0 ==> r == hs[0])
  {
  }

  lemma {:induction false} TakenOrdered(hs: seq<Run>, f: nat, n: nat)
    requires Ordered(hs) && 1 <= f < |hs| && 1 <= n <= hs[f].size
    ensures Ordered(Taken(hs, f, n))
  {
    var hs' := Taken(hs, f, n);
    forall i, j | 0 <= i < j < |hs'| ensures hs'[i].WellBefore(hs'[j]) {
      TakenHole(hs, f, n, i);
      TakenHole(hs, f, n, j);
      assert hs[Source(hs, f, n, i)].WellBefore(hs[Source(hs, f, n, j)]);
    }
    forall i | 1 <= i < |hs'| ensures hs'[i].size >= 1 {
      TakenHole(hs, f, n, i);
    }
    TakenHole(hs, f, n, 0);
  }

  lemma {:induction false} NextWithout(hs: seq<Run>, f: nat, i: nat)
    requires 1 <= f < |hs| && i < |Without(hs, f)|
    ensures Without(hs, f)[i] == hs[Old(f, i)]
    ensures Next(Without(hs, f), i) == Next(hs, if i == f - 1 then f else Old(f, i))
  {
  }

  lemma {:induction false} BypassLinked(mem: seq<Header>, hs: seq<Run>, f: nat, i: nat)
    requires Ordered(hs) && Linked(mem, hs) && 1 <= f < |hs| && i < |Without(hs, f)|
    requires LinkedAt(mem, hs, f) && LinkedAt(mem, hs, f - 1)
    ensures LinkedAt(mem[hs[f - 1].at := mem[hs[f - 1].at].(ptr := Next(hs, f))], Without(hs, f), i)
  {
    NextWithout(hs, f, i);
    assert LinkedAt(mem, hs, Old(f, i));
    assert i != f - 1 ==> hs[Old(f, i)].at != hs[f - 1].at by {
      if i < f - 1 { assert hs[i].WellBefore(hs[f - 1]); }
      if i >= f { assert hs[f - 1].WellBefore(hs[i + 1]); }
    }
  }

  lemma {:induction false} ShortenedLinked(mem: seq<Header>, hs: seq<Run>, f: nat, n: nat, i: nat)
    requires 1 <= f < |hs| && 1 <= n < hs[f].size && i < |hs| && LinkedAt(mem, hs, i) && LinkedAt(mem, hs, f)
    requires hs[f - 1].at < |mem|
    requires (i < f ==> hs[i].WellBefore(hs[f])) && (i > f ==> hs[f].WellBefore(hs[i]))
    ensures LinkedAt(TakenMem(mem, hs, f, n), Taken(hs, f, n), i)
  {
    assert Next(Taken(hs, f, n), i) == Next(hs, i);
  }

  lemma {:induction false} TakenLinked(mem: seq<Header>, hs: seq<Run>, f: nat, n: nat)
    requires Ordered(hs) && Linked(mem, hs) && 1 <= f < |hs| && 1 <= n <= hs[f].size
    requires LinkedAt(mem, hs, f) && LinkedAt(mem, hs, f - 1)
    ensures Linked(TakenMem(mem, hs, f, n), Taken(hs, f, n))
  {
    var m, hs' := TakenMem(mem, hs, f, n), Taken(hs, f, n);
    forall i | 0 <= i < |hs'| ensures LinkedAt(m, hs', i) {
      if hs[f].size == n {
        BypassLinked(mem, hs, f, i);
      } else {
        assert LinkedAt(mem, hs, i);
        if i < f { assert hs[i].WellBefore(hs[f]); }
        if i > f { assert hs[f].WellBefore(hs[i]); }
        ShortenedLinked(mem, hs, f, n, i);
      }
    }
  }

  lemma {:induction false} ShortenedSum(hs: seq<Run>, f: nat, n: nat, i: nat)
    requires f < |hs| && n <= hs[f].size && i <= |hs|
    ensures Sum(hs[f := Run(hs[f].at, hs[f].size - n)], i) == Sum(hs, i) - if i <= f then n else 0
    decreases |hs| - i
  {
    if i < |hs| { ShortenedSum(hs, f, n, i + 1); }
  }

  lemma {:induction false} TakenSum(hs: seq<Run>, f: nat, n: nat)
    requires f < |hs| && 1 <= n <= hs[f].size
    ensures Total(Taken(hs, f, n)) + n == Total(hs)
  {
    if hs[f].size == n {
      WithoutSum(hs, f, 0);
    } else {
      ShortenedSum(hs, f, n, 0);
    }
  }

  /** The piece lies in hole f, so it meets nothing else. */
  lemma {:induction false} PieceApart(hs: seq<Run>, f: nat, n: nat, us: seq<Run>)
    requires Ordered(hs) && Apart(hs, us) && Separate(us) && 1 <= f < |hs| && 1 <= n <= hs[f].size
    ensures forall j :: 0 <= j < |us| ==> Disjoint(Piece(hs, f, n), us[j])
    ensures Apart(Taken(hs, f, n), With(us, Piece(hs, f, n)))
  {
    var hs', r := Taken(hs, f, n), Piece(hs, f, n);
    forall j | 0 <= j < |us| ensures Disjoint(r, us[j]) { assert Disjoint(hs[f], us[j]); }
    forall i, j | 0 <= i < |hs'| && 0 <= j < |With(us, r)| ensures Disjoint(hs'[i], With(us, r)[j]) {
      WithAt(us, r, j);
      var k := if hs[f].size == n then Old(f, i) else i;
      assert hs'[i].at == hs[k].at && hs'[i].size <= hs[k].size;
      assert k < f ==> hs[k].WellBefore(hs[f]);
      assert k > f ==> hs[f].WellBefore(hs[k]);
      var l := Rank(us, r.at, 0);
      if j < l { assert Disjoint(hs[k], us[j]); }
      if j > l { assert Disjoint(hs[k], us[j - 1]); }
    }
  }

  /** The headers written lie in holes. */
  lemma {:induction false} TakenUntouched(mem: seq<Header>, hs: seq<Run>, f: nat, n: nat, us: seq<Run>)
    requires Sound(Store(mem, hs, us)) && 1 <= f < |hs| && 1 <= n <= hs[f].size
    requires LinkedAt(mem, hs, f) && LinkedAt(mem, hs, f - 1)
    ensures Untouched(mem, TakenMem(mem, hs, f, n), us)
  {
    forall j, u: nat | 0 <= j < |us| && us[j].Has(u)
      ensures u != hs[f].at && u != Piece(hs, f, n).at && u != hs[f - 1].at
    {
      assert Disjoint(hs[f], us[j]) && Disjoint(hs[f - 1], us[j]);
    }
  }

  lemma {:induction false} TakenHeaded(mem: seq<Header>, hs: seq<Run>, f: nat, n: nat, us: seq<Run>)
    requires Sound(Store(mem, hs, us)) && 1 <= f < |hs| && 1 <= n <= hs[f].size
    requires LinkedAt(mem, hs, f) && LinkedAt(mem, hs, f - 1)
    ensures Headed(TakenMem(mem, hs, f, n), With(us, Piece(hs, f, n)))
  {
    var m, r := TakenMem(mem, hs, f, n), Piece(hs, f, n);
    TakenUntouched(mem, hs, f, n, us);
    assert hs[f - 1].WellBefore(hs[f]);
    assert m[r.at].size == n;
    forall j | 0 <= j < |With(us, r)|
      ensures With(us, r)[j].EndsBy(|m|)
      ensures With(us, r)[j].size >= 1 ==> m[With(us, r)[j].at].size == With(us, r)[j].size
    {
      WithAt(us, r, j);
      var l := Rank(us, r.at, 0);
      if j < l { assert us[j].Has(us[j].at); }
      if j > l { assert us[j - 1].Has(us[j - 1].at); }
    }
  }

  /** What an allocation keeps. */
  lemma {:induction false} TakenSound(mem: seq<Header>, hs: seq<Run>, f: nat, n: nat, us: seq<Run>)
    requires Sound(Store(mem, hs, us)) && 1 <= f < |hs| && 1 <= n <= hs[f].size
    requires LinkedAt(mem, hs, f) && LinkedAt(mem, hs, f - 1)
    ensures Sound(Store(TakenMem(mem, hs, f, n), Taken(hs, f, n), With(us, Piece(hs, f, n))))
    ensures Total(Taken(hs, f, n)) + Total(With(us, Piece(hs, f, n))) == Total(hs) + Total(us)
  {
    TakenOrdered(hs, f, n);
    TakenLinked(mem, hs, f, n);
    PieceApart(hs, f, n, us);
    assert hs[0].WellBefore(hs[f]);
    WithSeparate(us, Piece(hs, f, n));
    TakenHeaded(mem, hs, f, n, us);
    TakenSum(hs, f, n);
    WithSum(us, Piece(hs, f, n), 0);
  }

  // ---------------------------------------------------------------- what the two say together

  /** The list after an allocation from hole f has this hole below the piece, and no hole to join above it. */
  lemma {:induction false} PiecePlace(hs: seq<Run>, f: nat, n: nat, t: nat)
    requires Ordered(hs) && 1 <= f < |hs| && 1 <= n <= hs[f].size
    requires Below(Taken(hs, f, n), t, Piece(hs, f, n).at)
    ensures t == if hs[f].size == n then f - 1 else f
    ensures JoinsDown(Taken(hs, f, n), t, Piece(hs, f, n)) <==> hs[f].size > n
    ensures !JoinsUp(Taken(hs, f, n), t, Piece(hs, f, n))
  {
    assert hs[f - 1].WellBefore(hs[f]) && (f + 1 < |hs| ==> hs[f].WellBefore(hs[f + 1]));
    TakenOrdered(hs, f, n);
    var place := if hs[f].size == n then f - 1 else f;
    BelowHere(Taken(hs, f, n), place, Piece(hs, f, n).at);
    BelowUnique(Taken(hs, f, n), t, place, Piece(hs, f, n).at);
  }

  lemma {:induction false} RestoredList(hs: seq<Run>, f: nat, n: nat, hs': seq<Run>, t: nat, ins: seq<Run>)
    requires 1 <= f < |hs| && 1 <= n <= hs[f].size && hs' == Taken(hs, f, n) && t < |hs'|
    requires t == if hs[f].size == n then f - 1 else f
    requires JoinsDown(hs', t, Piece(hs, f, n)) <==> hs[f].size > n
    requires !JoinsUp(hs', t, Piece(hs, f, n)) && IsInserted(hs', t, Piece(hs, f, n), ins)
    ensures ins == hs
  {
    forall i | 0 <= i < |hs| ensures ins[i] == hs[i] {
      if hs[f].size == n && i > f { assert hs'[i - 1] == hs[Old(f, i - 1)]; }
    }
  }

  /** Freeing a block just allocated from the list restores the list and the allocations. */
  lemma {:induction false} FreeUndoesMalloc(hs: seq<Run>, f: nat, n: nat, us: seq<Run>, t: nat, j: nat)
    requires Ordered(hs) && 1 <= f < |hs| && 1 <= n <= hs[f].size
    requires Below(Taken(hs, f, n), t, Piece(hs, f, n).at)
    requires j < |With(us, Piece(hs, f, n))| && j == Rank(us, Piece(hs, f, n).at, 0)
    ensures Inserted(Taken(hs, f, n), t, Piece(hs, f, n)) == hs
    ensures Without(With(us, Piece(hs, f, n)), j) == us
  {
    var hs', r := Taken(hs, f, n), Piece(hs, f, n);
    PiecePlace(hs, f, n, t);
    RestoredList(hs, f, n, hs', t, Inserted(hs', t, r));
    WithoutWith(us, r, j);
  }
}
