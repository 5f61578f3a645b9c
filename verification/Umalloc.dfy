/** umalloc.c: malloc and free on the free list. */
module Umalloc {
  import opened FreeList

  const UNIT: nat := 8                       // sizeof(Header)
  const WORD: nat := 0x1_0000_0000
  const TOP: nat := 0x1000_0000              // KERNBASE / UNIT: user memory ends here

  /** Header units for so many bytes and their header, in 32-bit arithmetic. */
  function Units(nbytes: nat): (n: nat)
    ensures n >= 1
  {
    (nbytes + UNIT - 1) % WORD / UNIT + 1
  }

  /** The block holds the bytes asked for exactly when rounding them up does not wrap a 32-bit word. */
  lemma PayloadLargeEnough(nbytes: nat)
    requires nbytes < WORD
    ensures (Units(nbytes) - 1) * UNIT >= nbytes <==> nbytes <= WORD - UNIT
  {
    if nbytes + UNIT - 1 < WORD {
      assert (nbytes + UNIT - 1) % WORD == nbytes + UNIT - 1;
    } else {
      assert (nbytes + UNIT - 1) % WORD == nbytes + UNIT - 1 - WORD;
    }
  }

  /** It is then the least number of units with room for the bytes and a header; otherwise the block is a header
      alone. */
  lemma UnitsLeast(nbytes: nat, n: nat)
    requires nbytes < WORD && n >= 1
    ensures nbytes <= WORD - UNIT ==> (n >= Units(nbytes) <==> (n - 1) * UNIT >= nbytes)
    ensures nbytes > WORD - UNIT ==> Units(nbytes) == 1
  {
    if nbytes + UNIT - 1 < WORD {
      assert (nbytes + UNIT - 1) % WORD == nbytes + UNIT - 1;
    } else {
      assert (nbytes + UNIT - 1) % WORD == nbytes + UNIT - 1 - WORD;
    }
  }

  /** A 32-bit word read as an int. */
  function AsInt(w: nat): int { if w < 0x8000_0000 then w else w - WORD }

  /** sbrk is asked for the units meant exactly when there are fewer than 2^28 of them. */
  lemma BreakArgument(nu: nat)
    requires nu < WORD
    ensures AsInt(nu * UNIT % WORD) == nu * UNIT <==> nu < 0x1000_0000
  {
  }

  /** The outcome of morecore: more memory, none, or an sbrk argument that is not the 8 * nu meant. */
  datatype Core = More | NoCore | BadBreak

  /** malloc's outcome: the address past the header, no memory, or a request that sbrk misreads. */
  datatype Allocation = Block(ap: nat) | OutOfMemory | Broken

  /** Hole k is the first after c, going round, with n units. */
  ghost predicate FirstFit(hs: seq<Run>, c: nat, k: nat, n: nat) {
    1 <= k < |hs| && hs[k].size >= n && Seen(hs, c, k - 1, n)
  }

  /** The first fit has lost its last n units, which start at `at`. */
  ghost predicate TakenFirst(hs: seq<Run>, c: nat, k: nat, n: nat, hs': seq<Run>, at: int) {
    FirstFit(hs, c, k, n) && hs' == Taken(hs, k, n) && at == hs[k].at + hs[k].size - n
  }

  /** The list has got the units from hp on, behind hole t. */
  ghost predicate Replenished(hs: seq<Run>, hs': seq<Run>, hp: nat, size: nat, t: nat) {
    Below(hs, t, hp) && hs' == Inserted(hs, t, Run(hp, size))
  }

  /** The units of the first i requests. */
  function Needed(sizes: seq<nat>, i: nat): nat
    requires i <= |sizes|
  {
    if i == 0 then 0 else Needed(sizes, i - 1) + Units(sizes[i - 1])
  }

  lemma {:induction false} NeededGrows(sizes: seq<nat>, i: nat, j: nat)
    requires i <= j <= |sizes|
    ensures Needed(sizes, i) <= Needed(sizes, j)
    decreases j
  {
    if i < j { NeededGrows(sizes, i, j - 1); }
  }

  /** The list of the base and what is left of the units from hp on. */
  function OneHole(hp: nat, left: nat): seq<Run> {
    if left == 0 then [Run(0, 0)] else [Run(0, 0), Run(hp, left)]
  }

  lemma FirstHole(hp: nat, size: nat, hs: seq<Run>, t: nat)
    requires hp >= 1 && size >= 1 && Replenished([Run(0, 0)], hs, hp, size, t)
    ensures hs == OneHole(hp, size) && t == 0
  {
    assert Inserted([Run(0, 0)], 0, Run(hp, size))[0] == Run(0, 0);
    assert Inserted([Run(0, 0)], 0, Run(hp, size))[1] == Run(hp, size);
  }

  /** Taking from the one hole. */
  lemma OneHoleLess(hp: nat, left: nat, t: nat, k: nat, n: nat, hs': seq<Run>, at: int)
    requires n >= 1 && TakenFirst(OneHole(hp, left), t, k, n, hs', at)
    ensures n <= left && k == 1 && hs' == OneHole(hp, left - n) && at == hp + (left - n)
  {
    assert k == 1 && OneHole(hp, left)[1] == Run(hp, left);
    if left == n { assert Without(OneHole(hp, left), 1) == [Run(0, 0)]; }
  }

  /** hs is the list after freep at hole t: the old one, or with the units that morecore got. */
  ghost predicate FromList(was: seq<Run>, c: nat, hs: seq<Run>, t: nat, cores: nat, hp: nat, size: int) {
    if cores == 0 then hs == was && t == c else size >= 0 && Replenished(was, hs, hp, size, t)
  }

  class Heap {
    var mem: seq<Header>
    var freep: int                     // -1 before the first malloc
    ghost var holes: seq<Run>          // the free list in address order
    ghost var cur: nat                 // which hole freep is
    ghost var used: seq<Run>           // the allocations in address order
    ghost var got: nat                 // units obtained from sbrk

    /** The free list is circular and address-ordered with nothing to coalesce; it and the allocations do not overlap,
        and together they are as many units as sbrk gave. */
    ghost predicate Valid()
      reads this
    {
      && 1 <= |mem| <= TOP && Total(holes) + Total(used) == got
      && (if freep == -1 then holes == [] && used == []
          else Sound(Store(mem, holes, used)) && cur < |holes| && holes[cur].at == freep)
    }

    constructor (units: nat)
      requires 1 <= units <= TOP
      ensures Valid() && freep == -1 && used == [] && |mem| == units
    {
      mem, freep := seq(units, i => Header(0, 0)), -1;
      holes, cur, used, got := [], 0, [], 0;
    }

    /** The loop of free: it stops at the last hole below bp, wherever it starts. */
    method FindPlace(bp: nat) returns (p: nat, ghost t: nat)
      requires Valid() && freep != -1 && 1 <= bp && forall i :: 0 <= i < |holes| ==> holes[i].at != bp
      ensures Below(holes, t, bp) && p == holes[t].at
    {
      ghost var goal := Place(holes, bp);
      p, t := freep, cur;
      while !(bp > p && bp < mem[p].ptr)
        invariant t < |holes| && p == holes[t].at && LinkedAt(mem, holes, t)
        invariant t + 1 < |holes| ==> holes[t].WellBefore(holes[t + 1])
        decreases if t <= goal then goal - t else goal + |holes| - t
      {
        if p >= mem[p].ptr && (bp > p || bp < mem[p].ptr) {
          break;
        }
        p := mem[p].ptr;
        t := if t + 1 < |holes| then t + 1 else 0;
      }
      assert t + 1 < |holes| ==> holes[t].WellBefore(holes[t + 1]);
      BelowHere(holes, t, bp);
    }

    /** The two headers that free writes. */
    method Join(bp: nat, p: nat, ghost hs: seq<Run>, ghost t: nat, ghost r: Run)
      requires Fits(hs, t, r) && LinkedAt(mem, hs, t) && (t + 1 < |hs| ==> LinkedAt(mem, hs, t + 1))
      requires bp == r.at < |mem| && p == hs[t].at && mem[bp].size == r.size
      modifies this`mem
      ensures mem == FreedMem(old(mem), hs, t, r)
    {
      assert Disjoint(hs[t], r) && (t + 1 < |hs| ==> Disjoint(hs[t + 1], r) && hs[t].WellBefore(hs[t + 1]));
      var q := mem[p].ptr;
      if bp + mem[bp].size == q {
        mem := mem[bp := Header(mem[q].ptr, mem[bp].size + mem[q].size)];
      } else {
        mem := mem[bp := mem[bp].(ptr := q)];
      }
      if p + mem[p].size == bp {
        mem := mem[p := Header(mem[bp].ptr, mem[p].size + mem[bp].size)];
      } else {
        mem := mem[p := mem[p].(ptr := bp)];
      }
    }

    /** free(ap). The block goes back to the list, joined to the holes it touches; no unit of any other allocation is
        written, and freep is left at the hole below. */
    method Free(ap: nat, ghost j: nat) returns (ghost t: nat, ghost f: nat)
      requires Valid() && freep != -1 && j < |used| && ap == used[j].at + 1
      modifies this`mem, this`freep, this`holes, this`cur, this`used
      ensures Valid() && freep != -1 && |mem| == |old(mem)|
      ensures used == Without(old(used), j)
      ensures Below(old(holes), t, old(used)[j].at) && cur == t && holes == Inserted(old(holes), t, old(used)[j])
      ensures Untouched(old(mem), mem, used)
      ensures f < |holes| && holes[f].size >= old(used)[j].size
    {
      var bp := ap - 1;
      FreedFits(holes, used, j);
      var p;
      p, t := FindPlace(bp);
      assert LinkedAt(mem, holes, t) && (t + 1 < |holes| ==> LinkedAt(mem, holes, t + 1));
      Freed(mem, holes, t, used, j);
      Join(bp, p, holes, t, used[j]);
      freep, cur := p, t;
      f := Home(holes, t, used[j]);
      holes, used := Inserted(holes, t, used[j]), Without(used, j);
    }

    /** sbrk: n units past the end of memory, after `gap` units that others have taken. */
    method Grow(n: nat, gap: nat) returns (hp: nat)
      requires Valid() && freep != -1 && n >= 1 && |mem| + gap + n < TOP
      modifies this`mem, this`used, this`got
      ensures Valid() && hp == |old(mem)| + gap && old(mem) <= mem && |mem| == hp + n
      ensures used == old(used) + [Run(hp, n)] && got == old(got) + n
    {
      hp := |mem| + gap;
      mem := mem + seq(gap + n, i => Header(0, 0));
      mem := mem[hp := mem[hp].(size := n)];
      Grown(old(mem), mem, holes, used, Run(hp, n));
      used, got := used + [Run(hp, n)], got + n;
    }

    /** The new units, from hp on, are freed into the list. */
    method Extend(n: nat, gap: nat, ghost hp: nat) returns (ghost t: nat, ghost f: nat)
      requires Valid() && freep != -1 && n >= 1 && |mem| + gap + n < TOP && hp == |mem| + gap
      modifies this
      ensures Valid() && freep != -1 && Untouched(old(mem), mem, old(used)) && used == old(used)
      ensures f < |holes| && holes[f].size >= n && got == old(got) + n
      ensures Replenished(old(holes), holes, hp, n, t) && cur == t
    {
      var bp := Grow(n, gap);
      t, f := Free(bp + 1, |used| - 1);
      assert used == old(used);
    }

    /** morecore(nu), where the sbrk call in it succeeds unless `refused` or at the end of user memory, after others
        have taken `gap` units. The new units are freed into the list, so that some hole then has nu units. */
    method MoreCore(nu: nat, refused: bool, gap: nat) returns (r: Core, ghost t: nat, ghost f: nat)
      requires Valid() && freep != -1
      modifies this
      ensures Valid() && freep != -1 && Untouched(old(mem), mem, old(used)) && used == old(used)
      ensures r == BadBreak <==> nu >= 0x1000_0000
      ensures r == NoCore <==>
        nu < 0x1000_0000 && (refused || |old(mem)| + gap + (if nu < 4096 then 4096 else nu) >= TOP)
      ensures r == More ==> f < |holes| && holes[f].size >= nu && got == old(got) + if nu < 4096 then 4096 else nu
      ensures r == More ==> Replenished(old(holes), holes, |old(mem)| + gap, got - old(got), t) && cur == t
      ensures r != More ==>
        mem == old(mem) && holes == old(holes) && freep == old(freep) && cur == old(cur) && got == old(got)
    {
      var n := nu;
      if n < 4096 {
        n := 4096;
      }
      t, f := 0, 0;
      if n >= 0x1000_0000 {
        return BadBreak, 0, 0;
      }
      if refused || |mem| + gap + n >= TOP {
        return NoCore, 0, 0;
      }
      t, f := Extend(n, gap, |mem| + gap);
      return More, t, f;
    }

    /** The first malloc makes the list of the base alone. */
    method Start()
      requires Valid()
      modifies this`mem, this`freep, this`holes, this`cur
      ensures Valid() && freep != -1 && got == old(got) && Untouched(old(mem), mem, used)
      ensures old(freep) != -1 ==> holes == old(holes) && mem == old(mem)
      ensures old(freep) == -1 ==> holes == [Run(0, 0)] && cur == 0 && |mem| == |old(mem)|
      ensures old(freep) != -1 ==> cur == old(cur)
    {
      if freep == -1 {
        mem := mem[0 := Header(0, 0)];
        freep, cur, holes := 0, 0, [Run(0, 0)];
        assert LinkedAt(mem, holes, 0);
        assert Sum(holes, 1) == 0;
      }
    }

    /** The end of malloc: n units from hole f, which prevp precedes. */
    method Take(prevp: nat, p: nat, n: nat, ghost f: nat) returns (ap: nat)
      requires Valid() && freep != -1 && 1 <= f < |holes| && 1 <= n <= holes[f].size
      requires p == holes[f].at && prevp == holes[f - 1].at
      modifies this`mem, this`freep, this`holes, this`cur, this`used
      ensures Valid() && freep != -1 && Untouched(old(mem), mem, old(used)) && |mem| == |old(mem)|
      ensures ap >= 1 && holes == Taken(old(holes), f, n) && Run(ap - 1, n) == Piece(old(holes), f, n) && cur == f - 1
      ensures used == With(old(used), Run(ap - 1, n))
    {
      TakenSound(mem, holes, f, n, used);
      TakenUntouched(mem, holes, f, n, used);
      assert LinkedAt(mem, holes, f) && LinkedAt(mem, holes, f - 1);
      var q := Detach(prevp, p, n, f);
      freep, cur := prevp, f - 1;
      used := With(used, Piece(holes, f, n));
      holes := Taken(holes, f, n);
      return q + 1;
    }

    /** The headers that malloc writes: an exact fit leaves the list, and otherwise the units come off its end. */
    method Detach(prevp: nat, p: nat, n: nat, ghost f: nat) returns (q: nat)
      requires Valid() && freep != -1 && 1 <= f < |holes| && 1 <= n <= holes[f].size
      requires p == holes[f].at && prevp == holes[f - 1].at && holes[f].EndsBy(|mem|) && prevp < |mem|
      modifies this`mem
      ensures mem == TakenMem(old(mem), holes, f, n) && Run(q, n) == Piece(holes, f, n)
    {
      assert LinkedAt(mem, holes, f) && LinkedAt(mem, holes, f - 1) && holes[f - 1].WellBefore(holes[f]);
      q := p;
      if mem[p].size == n {
        mem := mem[prevp := mem[prevp].(ptr := mem[p].ptr)];
      } else {
        mem := mem[p := mem[p].(size := mem[p].size - n)];
        q := p + mem[p].size;
        mem := mem[q := mem[q].(size := n)];
      }
    }

    /** The search of malloc, from the hole after freep round to freep: it finds the first hole of n units on that
        way, if there is one. */
    method Search(n: nat) returns (found: bool, prevp: nat, p: nat, ghost k: nat)
      requires Valid() && freep != -1 && n >= 1
      ensures found <==> !NoneFits(holes, n)
      ensures found ==> 1 <= k < |holes| && holes[k].size >= n && p == holes[k].at && prevp == holes[k - 1].at
      ensures found ==> Seen(holes, cur, k - 1, n)
    {
      prevp := freep;
      ghost var i: nat := cur;
      assert LinkedAt(mem, holes, i);
      p := mem[prevp].ptr;
      while true
        invariant i < |holes| && prevp == holes[i].at && p == Next(holes, i) && Seen(holes, cur, i, n)
        decreases Left(holes, cur, i)
      {
        k := if i + 1 < |holes| then i + 1 else 0;
        assert LinkedAt(mem, holes, k) && p == holes[k].at;
        if mem[p].size >= n {
          return true, prevp, p, k;
        }
        if p == freep {
          SameHole(holes, k, cur);
          return false, prevp, p, k;
        }
        prevp, i := p, k;
        p := mem[p].ptr;
      }
    }

    /** A hole of n units, from the list, or from morecore when nothing fits; morecore is called once at most, and then
        the search from the new freep, hole t, succeeds: hs is the list that it then searches. */
    method Obtain(n: nat, refused: bool, gap: nat)
      returns (core: Core, cores: nat, prevp: nat, p: nat, ghost hs: seq<Run>, ghost t: nat, ghost k: nat)
      requires Valid() && freep != -1 && n >= 1
      modifies this
      ensures Valid() && freep != -1 && Untouched(old(mem), mem, old(used)) && used == old(used)
      ensures cores == if NoneFits(old(holes), n) then 1 else 0
      ensures core == BadBreak <==> cores == 1 && n >= 0x1000_0000
      ensures core == NoCore <==>
        cores == 1 && n < 0x1000_0000 && (refused || |old(mem)| + gap + (if n < 4096 then 4096 else n) >= TOP)
      ensures got == old(got) + if core != More || cores == 0 then 0 else if n < 4096 then 4096 else n
      ensures core == More ==> hs == holes && FirstFit(hs, t, k, n) && p == hs[k].at && prevp == hs[k - 1].at
      ensures core == More ==> FromList(old(holes), old(cur), hs, t, cores, |old(mem)| + gap, got - old(got))
    {
      cores, core, t, hs := 0, More, cur, holes;
      var found;
      found, prevp, p, k := Search(n);
      if !found {
        cores := 1;
        ghost var f;
        core, t, f := MoreCore(n, refused, gap);
        if core != More {
          return;
        }
        hs := holes;
        found, prevp, p, k := Search(n);
      }
    }

    /** The part of malloc after the list is there: n units from the list hs, which is the old one or has got more. */
    method Allocate(n: nat, refused: bool, gap: nat)
      returns (r: Allocation, cores: nat, ghost hs: seq<Run>, ghost t: nat, ghost k: nat)
      requires Valid() && freep != -1 && n >= 1
      modifies this
      ensures Valid() && freep != -1 && Untouched(old(mem), mem, old(used))
      ensures cores == if NoneFits(old(holes), n) then 1 else 0
      ensures r == Broken <==> cores == 1 && n >= 0x1000_0000
      ensures r == OutOfMemory <==>
        cores == 1 && n < 0x1000_0000 && (refused || |old(mem)| + gap + (if n < 4096 then 4096 else n) >= TOP)
      ensures got == old(got) + if !r.Block? || cores == 0 then 0 else if n < 4096 then 4096 else n
      ensures r.Block? ==> r.ap >= 1 && used == With(old(used), Run(r.ap - 1, n))
      ensures !r.Block? ==> used == old(used)
      ensures r.Block? ==> FromList(old(holes), old(cur), hs, t, cores, |old(mem)| + gap, got - old(got))
      ensures r.Block? ==> TakenFirst(hs, t, k, n, holes, r.ap - 1) && cur == k - 1
    {
      var core, prevp, p;
      t := cur;
      core, cores, prevp, p, hs, t, k := Obtain(n, refused, gap);
      if core == NoCore {
        return OutOfMemory, cores, hs, t, k;
      } else if core == BadBreak {
        return Broken, cores, hs, t, k;
      }
      var ap := Take(prevp, p, n, k);
      return Block(ap), cores, hs, t, k;
    }

    /** malloc(nbytes). A block of Units(nbytes) units comes out of the end of the first hole after freep that has them,
        after morecore when none had, freep is left before that hole, and no unit of another allocation is written. */
    method Malloc(nbytes: nat, refused: bool, gap: nat)
      returns (r: Allocation, cores: nat, ghost hs: seq<Run>, ghost t: nat, ghost k: nat)
      requires Valid() && nbytes < WORD
      modifies this
      ensures Valid() && freep != -1 && Untouched(old(mem), mem, old(used))
      ensures r.Block? ==> r.ap >= 1 && used == With(old(used), Run(r.ap - 1, Units(nbytes)))
      ensures !r.Block? ==> used == old(used)
      ensures got == old(got) +
        if !r.Block? || cores == 0 then 0 else if Units(nbytes) < 4096 then 4096 else Units(nbytes)
      ensures cores == if NoneFits(old(holes), Units(nbytes)) then 1 else 0
      ensures r == Broken <==> cores == 1 && Units(nbytes) >= 0x1000_0000
      ensures r == OutOfMemory <==> (cores == 1 && Units(nbytes) < 0x1000_0000
        && (refused || |old(mem)| + gap + (if Units(nbytes) < 4096 then 4096 else Units(nbytes)) >= TOP))
      ensures r.Block? ==> FromList(if old(freep) == -1 then [Run(0, 0)] else old(holes),
                                    if old(freep) == -1 then 0 else old(cur), hs, t, cores, |old(mem)| + gap,
                                    got - old(got))
      ensures r.Block? ==> TakenFirst(hs, t, k, Units(nbytes), holes, r.ap - 1) && cur == k - 1
    {
      Start();
      r, cores, hs, t, k := Allocate(Units(nbytes), refused, gap);
    }

    /** Where the i-th of a series of requests finds the heap. */
    ghost predicate Served(sizes: seq<nat>, i: nat, hp: nat)
      requires i <= |sizes|
      reads this
    {
      if i == 0 then freep == -1 && hp == |mem|
      else freep != -1 && cur == 0 && Needed(sizes, i) <= 4096 && holes == OneHole(hp, 4096 - Needed(sizes, i))
    }

    method ServeOne(sizes: seq<nat>, i: nat, ghost hp: nat) returns (ap: nat, cores: nat)
      requires Valid() && i < |sizes| && sizes[i] < WORD && Needed(sizes, i + 1) <= 4096
      requires Served(sizes, i, hp) && hp >= 1 && (i == 0 ==> |mem| + 4096 < TOP)
      modifies this
      ensures Valid() && Served(sizes, i + 1, hp) && cores == (if i == 0 then 1 else 0)
      ensures ap == hp + (4096 - Needed(sizes, i + 1)) + 1 && used == With(old(used), Run(ap - 1, Units(sizes[i])))
    {
      ghost var n, left := Units(sizes[i]), 4096 - Needed(sizes, i);
      if i > 0 { assert holes[1].size >= n; }
      var r; ghost var hs, t, k;
      r, cores, hs, t, k := Malloc(sizes[i], false, 0);
      if i == 0 { FirstHole(hp, 4096, hs, t); }
      OneHoleLess(hp, left, t, k, n, holes, r.ap - 1);
      ap := r.ap;
    }

    /** A program whose mallocs together need at most 4096 units calls sbrk once: every block comes from the units of
        the first call, the first block from their end and each below the one before. */
    method Serve(sizes: seq<nat>) returns (aps: seq<nat>, cores: nat)
      requires Valid() && freep == -1 && (forall i :: 0 <= i < |sizes| ==> sizes[i] < WORD)
      requires Needed(sizes, |sizes|) <= 4096 && |mem| + 4096 < TOP
      modifies this
      ensures Valid() && |aps| == |sizes| && cores == if sizes == [] then 0 else 1
      ensures forall i :: 0 <= i < |sizes| ==> aps[i] == |old(mem)| + (4096 - Needed(sizes, i + 1)) + 1
    {
      aps, cores := [], 0;
      for i := 0 to |sizes|
        invariant Valid() && |aps| == i && Served(sizes, i, |old(mem)|) && cores == (if i == 0 then 0 else 1)
        invariant i == 0 ==> |mem| + 4096 < TOP
        invariant forall j :: 0 <= j < i ==> aps[j] == |old(mem)| + (4096 - Needed(sizes, j + 1)) + 1
      {
        NeededGrows(sizes, i + 1, |sizes|);
        var ap, more := ServeOne(sizes, i, |old(mem)|);
        aps, cores := aps + [ap], cores + more;
      }
    }
  }
}
