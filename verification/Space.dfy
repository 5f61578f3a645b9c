/** How many blocks are free on a volume, how many a write needs, and what a write does to both. */
module Space {
  import opened Bytes
  import opened Volume

  // ---------------------------------------------------------------- counting what is logged

  /** The bitmap blocks of the data area, and how many there are. */
  ghost function Bitmaps(sb: Superblock): set<nat>
    requires sb.size >= 1
  {
    set b: nat | b <= sb.BBlock(sb.size - 1) && IsBitmap(sb, b)
  }

  predicate IsBitmap(sb: Superblock, b: nat) { sb.BBlock(sb.DataStart()) <= b }

  function NBitmaps(sb: Superblock): nat {
    var lo, hi := sb.DataStart() / BPB, (sb.size + BPB - 1) / BPB;
    if lo < hi then hi - lo else 0
  }

  lemma DivLe(a: nat, b: nat)
    requires a <= b
    ensures a / BPB <= b / BPB
  {
  }

  lemma InBitmaps(sb: Superblock, a: nat)
    requires sb.DataStart() <= a < sb.size
    ensures sb.BBlock(a) in Bitmaps(sb)
  {
    DivLe(sb.DataStart(), a);
    DivLe(a, sb.size - 1);
    assert IsBitmap(sb, sb.BBlock(a));
  }

  lemma Card(a: set<nat>, b: set<nat>, c: set<nat>)
    requires a <= b + c
    ensures |a| <= |b| + |c|
  {
    assert a == a * b + (a - b);
    Subset(a * b, b);
    Subset(a - b, c);
  }

  lemma Subset(a: set<nat>, b: set<nat>)
    requires a <= b
    ensures |a| <= |b|
  {
    assert b == a + (b - a);
  }

  lemma {:induction false} Interval(s: set<nat>, lo: nat, hi: nat)
    requires lo <= hi && forall x :: x in s ==> lo <= x < hi
    ensures |s| <= hi - lo
    decreases hi
  {
    if lo < hi {
      Interval(s - {hi - 1}, lo, hi - 1);
    } else {
      assert s == {};
    }
  }

  lemma BitmapsCount(sb: Superblock)
    requires sb.size >= 1
    ensures |Bitmaps(sb)| <= NBitmaps(sb)
  {
    var lo, hi := sb.BBlock(sb.DataStart()), sb.BBlock(sb.size - 1) + 1;
    if lo <= hi {
      Interval(Bitmaps(sb), lo, hi);
    } else {
      assert Bitmaps(sb) == {};
    }
  }

  /** The log has gone from was to now: it has blocks of `known` more, and at most n others. */
  ghost predicate Adds(was: set<nat>, now: set<nat>, known: set<nat>, n: nat) {
    was <= now && forall x {:trigger Counted(x)} :: Counted(x) && x <= now && x !! was && x !! known ==> |x| <= n
  }

  /** Names a set of blocks to count; Adds says nothing of sets that nobody counts. */
  predicate Counted(x: set<nat>) { true }

  lemma AddsKnown(was: set<nat>, now: set<nat>, known: set<nat>)
    requires was <= now <= was + known
    ensures Adds(was, now, known, 0)
  {
    forall x | Counted(x) && x <= now && x !! was && x !! known ensures |x| <= 0 {
      assert x == {};
    }
  }

  lemma AddsMore(a: set<nat>, b: set<nat>, c: set<nat>, i: set<nat>, n: nat, j: set<nat>, m: nat)
    requires Adds(a, b, i, n) && Adds(b, c, j, m)
    ensures Adds(a, c, i + j, n + m)
  {
    forall x | Counted(x) && x <= c && x !! a && x !! (i + j) ensures |x| <= n + m {
      assert Counted(x * b) && Counted(x - b);
      Card(x, x * b, x - b);
    }
  }

  lemma AddsAtMost(was: set<nat>, now: set<nat>, i: set<nat>, n: nat, j: set<nat>, m: nat)
    requires Adds(was, now, i, n) && i <= j && n <= m
    ensures Adds(was, now, j, m)
  {
  }

  /** Counted from an empty log. */
  lemma AddsAll(now: set<nat>, known: set<nat>, n: nat)
    requires Adds({}, now, known, n)
    ensures |now| <= |known| + n
  {
    assert Counted(now - known);
    Card(now, known, now - known);
  }

  // ---------------------------------------------------------------- free blocks

  ghost function FreeBlocks(sb: Superblock, d: Disk): set<nat>
    requires sb.Ok(d)
  {
    set c: nat | c < sb.size && !Used(sb, d, c)
  }

  ghost function NFree(sb: Superblock, d: Disk): nat
    requires sb.Ok(d)
  {
    |FreeBlocks(sb, d)|
  }

  lemma NoneFree(sb: Superblock, d: Disk)
    requires sb.Ok(d)
    ensures NFree(sb, d) == 0 <==> forall c :: 0 <= c < sb.size ==> Used(sb, d, c)
  {
    if NFree(sb, d) == 0 {
      forall c | 0 <= c < sb.size ensures Used(sb, d, c) { assert c !in FreeBlocks(sb, d); }
    } else {
      var c :| c in FreeBlocks(sb, d);
    }
  }

  /** Allocating a free block leaves one free block fewer. */
  lemma AllocatedFree(sb: Superblock, d: Disk, b: nat)
    requires sb.Ok(d) && sb.DataStart() <= b < sb.size && !Used(sb, d, b)
    ensures NFree(sb, Allocated(sb, d, b)) == NFree(sb, d) - 1
  {
    forall c | 0 <= c < sb.size ensures Used(sb, Allocated(sb, d, b), c) == (c == b || Used(sb, d, c)) {
      AllocatedBits(sb, d, b, c);
    }
    assert FreeBlocks(sb, Allocated(sb, d, b)) == FreeBlocks(sb, d) - {b};
  }

  lemma AllocatedGrows(sb: Superblock, d: Disk, b: nat)
    requires sb.Ok(d) && sb.DataStart() <= b < sb.size
    ensures UsedGrows(sb, d, Allocated(sb, d, b)) && BelowBitmap(sb, d, Allocated(sb, d, b))
  {
    forall c | 0 <= c < sb.size && Used(sb, d, c) ensures Used(sb, Allocated(sb, d, b), c) {
      AllocatedBits(sb, d, b, c);
    }
  }

  /** Superblock, log and inode blocks are the same. */
  ghost predicate BelowBitmap(sb: Superblock, d: Disk, d': Disk)
    requires sb.Ok(d) && sb.Ok(d')
  {
    forall c :: 0 <= c < sb.bmapstart ==> d'[c] == d[c]
  }

  /** The bitmap is the same. */
  ghost predicate SameBits(sb: Superblock, d: Disk, d': Disk)
    requires sb.Ok(d) && sb.Ok(d')
  {
    forall b :: sb.bmapstart <= b < sb.DataStart() ==> d'[b] == d[b]
  }

  lemma SameBitsFree(sb: Superblock, d: Disk, d': Disk)
    requires sb.Ok(d) && sb.Ok(d') && SameBits(sb, d, d')
    ensures NFree(sb, d') == NFree(sb, d)
    ensures forall c :: 0 <= c < sb.size ==> Used(sb, d', c) == Used(sb, d, c)
  {
    forall c | 0 <= c < sb.size ensures Used(sb, d', c) == Used(sb, d, c) {
      assert sb.bmapstart <= sb.BBlock(c) < sb.DataStart();
    }
    assert FreeBlocks(sb, d') == FreeBlocks(sb, d);
  }

  // ---------------------------------------------------------------- blocks that a write needs

  /** 1 if address k of inode i is missing. */
  function Gap(sb: Superblock, d: Disk, t: Table, i: nat, k: nat): nat
    requires Shaped(sb, d, t) && i < |t| && k < NSLOTS
  {
    if Addr(sb, d, t, i, k) == 0 then 1 else 0
  }

  /** The data blocks lo .. hi of file i that are missing. */
  function DataMissing(sb: Superblock, d: Disk, t: Table, i: nat, lo: nat, hi: nat): nat
    requires Shaped(sb, d, t) && i < |t| && hi <= MAXFILE
  {
    if hi <= lo then 0 else DataMissing(sb, d, t, i, lo, hi - 1) + Gap(sb, d, t, i, DataSlot(hi - 1))
  }

  /** The blocks lo .. hi of a file, if any, include one that the indirect block has the address of. */
  predicate Indirect(lo: nat, hi: nat) { lo < hi && hi > NDIRECT }

  /** The blocks to be allocated before blocks lo .. hi of file i are all there. */
  function Missing(sb: Superblock, d: Disk, t: Table, i: nat, lo: nat, hi: nat): nat
    requires Shaped(sb, d, t) && i < |t| && hi <= MAXFILE
  {
    DataMissing(sb, d, t, i, lo, hi) + if Indirect(lo, hi) then Gap(sb, d, t, i, NDIRECT) else 0
  }

  /** The most that writing blocks lo .. hi of file i logs besides the inode's block: each of them, a bitmap block for
      each that is missing, and for an entry in the indirect block that block, and a bitmap block if it is missing. */
  function Need(sb: Superblock, d: Disk, t: Table, i: nat, lo: nat, hi: nat): nat
    requires Shaped(sb, d, t) && i < |t| && lo <= hi <= MAXFILE
  {
    var m := DataMissing(sb, d, t, i, lo, hi);
    hi - lo + m + if m > 0 && hi > NDIRECT then 1 + Gap(sb, d, t, i, NDIRECT) else 0
  }

  lemma {:induction false} MissingGrows(sb: Superblock, d: Disk, t: Table, i: nat, lo: nat, hi: nat, hi': nat)
    requires Shaped(sb, d, t) && i < |t| && hi <= hi' <= MAXFILE
    ensures Missing(sb, d, t, i, lo, hi) <= Missing(sb, d, t, i, lo, hi')
  {
    if hi < hi' { MissingGrows(sb, d, t, i, lo, hi, hi' - 1); }
  }

  /** The first block after those that hold n bytes from off on. */
  function Top(off: nat, n: nat): nat {
    if n == 0 then off / BSIZE else (off + n - 1) / BSIZE + 1
  }

  // ---------------------------------------------------------------- what allocation does

  /** Blocks in use stay in use. */
  ghost predicate UsedGrows(sb: Superblock, d: Disk, d': Disk)
    requires sb.Ok(d) && sb.Ok(d')
  {
    forall c {:trigger Used(sb, d', c)} :: 0 <= c < sb.size && Used(sb, d, c) ==> Used(sb, d', c)
  }

  /** New addresses of inode i are those of blocks that were free. */
  ghost predicate NewWereFree(sb: Superblock, d: Disk, t: Table, d': Disk, t': Table, i: nat)
    requires Shaped(sb, d, t) && Shaped(sb, d', t') && i < |t|
  {
    forall k {:trigger Addr(sb, d', t', i, k)} ::
      0 <= k < NSLOTS && Addr(sb, d, t, i, k) == 0 && 0 != Addr(sb, d', t', i, k) < sb.size ==>
      !Used(sb, d, Addr(sb, d', t', i, k))
  }

  /** Addresses in use stay as they are, and only inode i gets new ones. */
  ghost predicate Grows(sb: Superblock, d: Disk, t: Table, d': Disk, t': Table, i: nat)
    requires Shaped(sb, d, t) && Shaped(sb, d', t')
  {
    forall j, k {:trigger Addr(sb, d', t', j, k)} ::
      0 <= j < |t| && 0 <= k < NSLOTS && (j != i || Addr(sb, d, t, j, k) != 0) ==>
      Addr(sb, d', t', j, k) == Addr(sb, d, t, j, k)
  }

  /** From (d, t) to (d', t') the blocks lo .. hi of file i have been allocated where they were missing. */
  ghost predicate Filled(sb: Superblock, d: Disk, t: Table, d': Disk, t': Table, i: nat, lo: nat, hi: nat)
    requires Shaped(sb, d, t) && Shaped(sb, d', t') && i < |t| && hi <= MAXFILE
  {
    && NFree(sb, d') + Missing(sb, d, t, i, lo, hi) == NFree(sb, d)
    && UsedGrows(sb, d, d') && NewWereFree(sb, d, t, d', t', i)
    && (forall bn :: lo <= bn < hi ==> Addr(sb, d', t', i, DataSlot(bn)) != 0)
    && (forall bn {:trigger Addr(sb, d', t', i, DataSlot(bn))} :: 0 <= bn < MAXFILE && !(lo <= bn < hi) ==>
          Addr(sb, d', t', i, DataSlot(bn)) == Addr(sb, d, t, i, DataSlot(bn)))
    && Grows(sb, d, t, d', t', i)
    && (Addr(sb, d', t', i, NDIRECT) != 0 <==> Addr(sb, d, t, i, NDIRECT) != 0 || Indirect(lo, hi))
  }

  /** From (d, t) to (d', t') address k of inode i has been allocated if it was missing. */
  ghost predicate Got(sb: Superblock, d: Disk, t: Table, d': Disk, t': Table, i: nat, k: nat)
    requires Shaped(sb, d, t) && Shaped(sb, d', t') && i < |t| && k < NSLOTS
  {
    && NFree(sb, d') + Gap(sb, d, t, i, k) == NFree(sb, d) && UsedGrows(sb, d, d')
    && SameAddrsBut(sb, d, t, d', t', i, k) && 0 != Addr(sb, d', t', i, k) < sb.size
    && if Addr(sb, d, t, i, k) != 0 then Addr(sb, d', t', i, k) == Addr(sb, d, t, i, k)
       else !Used(sb, d, Addr(sb, d', t', i, k))
  }

  /** balloc's block b as a direct or the indirect block of inode i. */
  lemma GotAddr(sb: Superblock, d: Disk, t: Table, i: nat, k: nat, b: nat)
    requires Wf(sb, d, t) && i < |t| && k <= NDIRECT && Addr(sb, d, t, i, k) == 0 && b < sb.size && !Used(sb, d, b)
    ensures b != 0
    ensures var d', t' := Allocated(sb, d, b), WithAddr(t, i, k, b);
      && Wf(sb, d', t') && SameFiles(sb, d, t, d', t') && Addr(sb, d', t', i, k) == b && Got(sb, d, t, d', t', i, k)
      && BelowBitmap(sb, d, d')
  {
    AllocateKeeps(sb, d, t, b);
    FreeIsUnowned(sb, d, t, b);
    AllocatedFree(sb, d, b);
    AllocatedGrows(sb, d, b);
    SetAddr(sb, Allocated(sb, d, b), t, i, k, b);
  }

  /** balloc's block b as entry e of the indirect block of inode i. */
  lemma GotEntry(sb: Superblock, d: Disk, t: Table, i: nat, e: nat, b: nat)
    requires Wf(sb, d, t) && i < |t| && e < NINDIRECT && t[i].addrs[NDIRECT] != 0
    requires Addr(sb, d, t, i, NDIRECT + 1 + e) == 0 && b < sb.size && !Used(sb, d, b)
    ensures var a := t[i].addrs[NDIRECT];
      && a < |d| && var d' := Allocated(sb, d, b)[a := PutWord(Allocated(sb, d, b)[a], e, b)];
      && Wf(sb, d', t) && SameFiles(sb, d, t, d', t) && Addr(sb, d', t, i, NDIRECT + 1 + e) == b != 0
      && Got(sb, d, t, d', t, i, NDIRECT + 1 + e) && BelowBitmap(sb, d, d')
  {
    var d1 := Allocated(sb, d, b);
    AllocateKeeps(sb, d, t, b);
    FreeIsUnowned(sb, d, t, b);
    AllocatedFree(sb, d, b);
    AllocatedGrows(sb, d, b);
    assert Addr(sb, d1, t, i, NDIRECT) == t[i].addrs[NDIRECT];
    SetEntry(sb, d1, t, i, e, b);
    var a := t[i].addrs[NDIRECT];
    SameBitsFree(sb, d1, d1[a := PutWord(d1[a], e, b)]);
  }

  lemma DirectFilled(sb: Superblock, d: Disk, t: Table, d': Disk, t': Table, i: nat, bn: nat)
    requires Shaped(sb, d, t) && Shaped(sb, d', t') && i < |t| && bn < NDIRECT && Got(sb, d, t, d', t', i, bn)
    ensures Filled(sb, d, t, d', t', i, bn, bn + 1) && Missing(sb, d, t, i, bn, bn + 1) == Gap(sb, d, t, i, bn)
  {
    assert DataMissing(sb, d, t, i, bn, bn) == 0;
  }

  lemma IndirectFilled(sb: Superblock, d: Disk, t: Table, d1: Disk, t1: Table, d': Disk, t': Table, i: nat, bn: nat,
                       k: nat)
    requires Shaped(sb, d, t) && Shaped(sb, d1, t1) && Shaped(sb, d', t') && i < |t|
    requires NDIRECT <= bn < k == bn + 1 <= MAXFILE
    requires Got(sb, d, t, d1, t1, i, NDIRECT) && Got(sb, d1, t1, d', t', i, k)
    requires SameFiles(sb, d, t, d1, t1) && SameFiles(sb, d1, t1, d', t')
    ensures Filled(sb, d, t, d', t', i, bn, k) && SameFiles(sb, d, t, d', t')
  {
    NeedsIndirect(sb, d, t, i, bn, k);
  }

  lemma NeedsIndirect(sb: Superblock, d: Disk, t: Table, i: nat, bn: nat, k: nat)
    requires Shaped(sb, d, t) && i < |t| && NDIRECT <= bn < k == bn + 1 <= MAXFILE
    ensures Missing(sb, d, t, i, bn, k) == Gap(sb, d, t, i, NDIRECT) + Gap(sb, d, t, i, k)
  {
    assert DataMissing(sb, d, t, i, bn, bn) == 0;
  }

  lemma {:induction false} DataMissingSplit(sb: Superblock, d: Disk, t: Table, d1: Disk, t1: Table, i: nat,
                                            lo: nat, hi: nat, lo': nat, hi': nat)
    requires Shaped(sb, d, t) && Shaped(sb, d1, t1) && i < |t| && lo <= lo' <= hi' <= MAXFILE && lo' <= hi <= MAXFILE
    requires Filled(sb, d, t, d1, t1, i, lo, hi)
    ensures DataMissing(sb, d1, t1, i, lo', hi')
            == if hi' <= hi then 0 else DataMissing(sb, d, t, i, lo, hi') - DataMissing(sb, d, t, i, lo, hi)
  {
    if lo' < hi' {
      DataMissingSplit(sb, d, t, d1, t1, i, lo, hi, lo', hi' - 1);
    }
  }

  /** What is still missing after a part has been allocated. */
  lemma MissingSplit(sb: Superblock, d: Disk, t: Table, d1: Disk, t1: Table, i: nat, lo: nat, hi: nat, lo': nat,
                     hi': nat)
    requires Shaped(sb, d, t) && Shaped(sb, d1, t1) && i < |t| && lo <= lo' <= hi <= hi' <= MAXFILE
    requires Filled(sb, d, t, d1, t1, i, lo, hi)
    ensures Missing(sb, d, t, i, lo, hi') == Missing(sb, d, t, i, lo, hi) + Missing(sb, d1, t1, i, lo', hi')
  {
    DataMissingSplit(sb, d, t, d1, t1, i, lo, hi, lo', hi');
  }

  /** One allocation after another. */
  lemma FilledMore(sb: Superblock, d: Disk, t: Table, d1: Disk, t1: Table, d2: Disk, t2: Table, i: nat,
                   lo: nat, hi: nat, lo': nat, hi': nat)
    requires Shaped(sb, d, t) && Shaped(sb, d1, t1) && Shaped(sb, d2, t2) && i < |t|
    requires lo <= lo' <= hi <= hi' <= MAXFILE
    requires Filled(sb, d, t, d1, t1, i, lo, hi) && Filled(sb, d1, t1, d2, t2, i, lo', hi')
    ensures Filled(sb, d, t, d2, t2, i, lo, hi')
  {
    MissingSplit(sb, d, t, d1, t1, i, lo, hi, lo', hi');
  }

  lemma NothingFilled(sb: Superblock, d: Disk, t: Table, i: nat, lo: nat)
    requires Shaped(sb, d, t) && i < |t| && lo <= MAXFILE
    ensures Filled(sb, d, t, d, t, i, lo, lo) && Missing(sb, d, t, i, lo, lo) == 0
  {
  }

  /** Where the disk and the other fields of inode i change, but no bit and no address. */
  lemma FilledThenSame(sb: Superblock, d: Disk, t: Table, d1: Disk, t1: Table, d2: Disk, t2: Table, i: nat, lo: nat,
                       hi: nat)
    requires Shaped(sb, d, t) && Shaped(sb, d1, t1) && Shaped(sb, d2, t2) && i < |t| && hi <= MAXFILE
    requires Filled(sb, d, t, d1, t1, i, lo, hi) && SameBits(sb, d1, d2) && SameAddrs(sb, d1, t1, d2, t2)
    ensures Filled(sb, d, t, d2, t2, i, lo, hi)
  {
    SameBitsFree(sb, d1, d2);
  }

  /** Bytes written to block bn of file i once that block is there. */
  lemma WriteThrough(sb: Superblock, d: Disk, t: Table, d1: Disk, t1: Table, d2: Disk, i: nat, bn: nat, hi: nat,
                     at: nat, bytes: seq<Byte>)
    requires Shaped(sb, d, t) && Wf(sb, d1, t1) && i < |t| && bn < hi == bn + 1 <= MAXFILE && at + |bytes| <= BSIZE
    requires Filled(sb, d, t, d1, t1, i, bn, hi) && SameFiles(sb, d, t, d1, t1)
    requires var a := Addr(sb, d1, t1, i, DataSlot(bn)); a < |d1| && d2 == d1[a := Splice(d1[a], at, bytes)]
    ensures Wf(sb, d2, t1) && SameAddrs(sb, d1, t1, d2, t1) && BelowBitmap(sb, d1, d2)
    ensures Filled(sb, d, t, d2, t1, i, bn, hi)
    ensures Spliced(sb, d, t, d2, t1, i, bn, at, bytes)
  {
    var a := Addr(sb, d1, t1, i, DataSlot(bn));
    WriteFileBlock(sb, d1, t1, i, bn, Splice(d1[a], at, bytes));
    FilledThenSame(sb, d, t, d1, t1, d2, t1, i, bn, hi);
    assert FileBlock(sb, d1, t1, i, bn) == d1[a];
  }

  /** A block inside a file without holes is there. */
  lemma InsideIsThere(sb: Superblock, d: Disk, t: Table, d': Disk, t': Table, i: nat, lo: nat, bn: nat)
    requires Shaped(sb, d, t) && Shaped(sb, d', t') && NoHoles(sb, d, t) && i < |t| && bn < MAXFILE
    requires Filled(sb, d, t, d', t', i, lo, bn)
    ensures Addr(sb, d', t', i, DataSlot(bn)) == 0 ==> t[i].size <= bn * BSIZE
  {
    if bn * BSIZE < t[i].size { assert Addr(sb, d, t, i, DataSlot(bn)) != 0; }
  }

  /** Inode blocks are the same. */
  ghost predicate SameInodes(sb: Superblock, d: Disk, d': Disk)
    requires sb.Ok(d) && sb.Ok(d')
  {
    forall b {:trigger d'[b]} :: sb.inodestart <= b < sb.bmapstart ==> d'[b] == d[b]
  }

  /** After tot bytes of src have gone to file i at off: the bytes are there, in blocks lo .. hi, allocated where they
      were missing, and nothing else has changed. */
  ghost predicate Progress(sb: Superblock, d: Disk, t: Table, d': Disk, t': Table, i: nat, off: nat, src: seq<Byte>,
                           tot: nat, lo: nat, hi: nat)
    requires Shaped(sb, d, t) && Shaped(sb, d', t') && i < |t| && tot <= |src| && hi <= MAXFILE
  {
    && Filled(sb, d, t, d', t', i, lo, hi)
    && SameInodes(sb, d, d') && Replaced(sb, d, t, d', t', i, off, src, tot)
  }

  /** One more round, in block bn from byte `at` of it on. */
  lemma ProgressStep(sb: Superblock, d: Disk, t: Table, d1: Disk, t1: Table, d2: Disk, t2: Table, i: nat,
                     off: nat, src: seq<Byte>, tot: nat, next: nat, lo: nat, bn: nat, hi: nat, at: nat)
    requires Shaped(sb, d, t) && Shaped(sb, d1, t1) && Shaped(sb, d2, t2) && i < |t| && |t| == |t1| == |t2|
    requires lo <= bn < hi == bn + 1 <= MAXFILE && RoundAt(off, |src|, tot, next, bn, at)
    requires Progress(sb, d, t, d1, t1, i, off, src, tot, lo, bn)
    requires Filled(sb, d1, t1, d2, t2, i, bn, hi) && SameInodes(sb, d1, d2)
    requires Spliced(sb, d1, t1, d2, t2, i, bn, at, src[tot..next])
    ensures Progress(sb, d, t, d2, t2, i, off, src, next, lo, hi)
  {
    FilledMore(sb, d, t, d1, t1, d2, t2, i, lo, bn, bn, hi);
    SpliceExtends(sb, d, t, d1, t1, d2, t2, i, off, src, tot, next, bn, at);
  }

  /** The round that starts after tot of n bytes from off on is in block `bn` from byte `at` of it on and ends after
      `next` bytes. Rounds but the first start at block boundaries. */
  predicate RoundAt(off: nat, n: nat, tot: nat, next: nat, bn: nat, at: nat) {
    && off + tot == bn * BSIZE + at && at < BSIZE && (tot > 0 ==> at == 0)
    && tot < n && next == if n - tot < BSIZE - at then n else tot + (BSIZE - at)
  }

  /** The n bytes from off on are in blocks lo .. hi. */
  predicate Spans(off: nat, n: nat, lo: nat, hi: nat) {
    && lo * BSIZE <= off < lo * BSIZE + BSIZE
    && if n == 0 then hi == lo else hi * BSIZE - BSIZE < off + n <= hi * BSIZE
  }

  lemma TopSpans(off: nat, n: nat)
    ensures Spans(off, n, off / BSIZE, Top(off, n))
    ensures off + n <= MAXBYTES ==> Top(off, n) <= MAXFILE
  {
  }

  /** Rounds end at block boundaries, but for the last. */
  predicate Cursor(off: nat, n: nat, tot: nat, lo: nat, hi: nat) {
    tot <= n && Spans(off, tot, lo, hi) && (0 < tot < n ==> off + tot == hi * BSIZE)
  }

  lemma LastRound(off: nat, n: nat, tot: nat, lo: nat, hi: nat, top: nat)
    requires Cursor(off, n, tot, lo, hi) && Spans(off, n, lo, top) && tot >= n
    ensures tot == n && hi == top
  {
  }

  /** The round after tot bytes. */
  lemma NextRound(off: nat, n: nat, tot: nat, lo: nat, hi: nat, top: nat)
    requires Cursor(off, n, tot, lo, hi) && Spans(off, n, lo, top) && tot < n
    ensures hi == (off + tot) / BSIZE && lo <= hi < top
    ensures var at := (off + tot) % BSIZE;
      var next := if n - tot < BSIZE - at then n else tot + (BSIZE - at);
      RoundAt(off, n, tot, next, hi, at) && Cursor(off, n, next, lo, hi + 1)
  {
  }

  // ---------------------------------------------------------------- what happens to the space of one inode

  /** The addresses of inode i are the same, and n blocks fewer are free. */
  ghost predicate Took(sb: Superblock, d: Disk, t: Table, d': Disk, t': Table, i: nat, n: nat)
    requires Shaped(sb, d, t) && Shaped(sb, d', t') && i < |t|
  {
    && NFree(sb, d') + n == NFree(sb, d)
    && forall k {:trigger Addr(sb, d', t', i, k)} :: 0 <= k < NSLOTS ==> Addr(sb, d', t', i, k) == Addr(sb, d, t, i, k)
  }

  lemma TookMore(sb: Superblock, d: Disk, t: Table, d1: Disk, t1: Table, d2: Disk, t2: Table, i: nat, n: nat, m: nat,
                 sum: nat)
    requires Shaped(sb, d, t) && Shaped(sb, d1, t1) && Shaped(sb, d2, t2) && i < |t| && sum == n + m
    requires Took(sb, d, t, d1, t1, i, n) && Took(sb, d1, t1, d2, t2, i, m)
    ensures Took(sb, d, t, d2, t2, i, sum)
  {
  }

  lemma {:induction false} TookMissing(sb: Superblock, d: Disk, t: Table, d': Disk, t': Table, i: nat, n: nat,
                                       lo: nat, hi: nat)
    requires Shaped(sb, d, t) && Shaped(sb, d', t') && i < |t| && hi <= MAXFILE && Took(sb, d, t, d', t', i, n)
    ensures DataMissing(sb, d', t', i, lo, hi) == DataMissing(sb, d, t, i, lo, hi)
    ensures Missing(sb, d', t', i, lo, hi) == Missing(sb, d, t, i, lo, hi)
    decreases hi
  {
    if lo < hi { TookMissing(sb, d, t, d', t', i, n, lo, hi - 1); }
  }

  /** A change that leaves bits and addresses alone takes nothing. */
  lemma SameTakesNothing(sb: Superblock, d: Disk, t: Table, d': Disk, t': Table, i: nat)
    requires Shaped(sb, d, t) && Shaped(sb, d', t') && i < |t| && SameBits(sb, d, d') && SameAddrs(sb, d, t, d', t')
    ensures Took(sb, d, t, d', t', i, 0)
  {
    SameBitsFree(sb, d, d');
  }

  /** Allocation for one inode takes from the free blocks and leaves the other inodes alone. */
  lemma FilledTakes(sb: Superblock, d: Disk, t: Table, d': Disk, t': Table, i: nat, lo: nat, hi: nat, j: nat, n: nat)
    requires Shaped(sb, d, t) && Shaped(sb, d', t') && i < |t| && j < |t| && j != i && hi <= MAXFILE
    requires Filled(sb, d, t, d', t', i, lo, hi) && n == Missing(sb, d, t, i, lo, hi)
    ensures Took(sb, d, t, d', t', j, n)
  {
  }

  /** Inode i has no addresses; bits and the other inodes' addresses are the same. */
  ghost predicate Blanked(sb: Superblock, d: Disk, t: Table, d': Disk, t': Table, i: nat)
    requires Shaped(sb, d, t) && Shaped(sb, d', t')
  {
    && SameBits(sb, d, d')
    && forall j, k {:trigger Addr(sb, d', t', j, k)} :: 0 <= j < |t| && 0 <= k < NSLOTS ==>
         Addr(sb, d', t', j, k) == if j == i then 0 else Addr(sb, d, t, j, k)
  }

  lemma BlankedTakesNothing(sb: Superblock, d: Disk, t: Table, d': Disk, t': Table, i: nat, j: nat)
    requires Shaped(sb, d, t) && Shaped(sb, d', t') && j < |t| && i != j && Blanked(sb, d, t, d', t', i)
    ensures Took(sb, d, t, d', t', j, 0)
  {
    SameBitsFree(sb, d, d');
  }

  // ---------------------------------------------------------------- blocks that a write logs

  /** Writing blocks lo .. hi of file i has logged each of them, the bitmap block of each new one, the indirect block
      where one is new in it, and the bitmap block of a new indirect block. */
  ghost predicate Touched(sb: Superblock, d: Disk, t: Table, d': Disk, t': Table, i: nat, lo: nat, hi: nat,
                          log: set<nat>)
    requires Shaped(sb, d, t) && Shaped(sb, d', t') && i < |t| && hi <= MAXFILE
  {
    && (forall bn :: lo <= bn < hi ==> BlockTouched(sb, d, t, d', t', i, bn, log))
    && (Addr(sb, d, t, i, NDIRECT) == 0 && Addr(sb, d', t', i, NDIRECT) != 0 ==>
          sb.BBlock(Addr(sb, d', t', i, NDIRECT)) in log)
  }

  ghost predicate BlockTouched(sb: Superblock, d: Disk, t: Table, d': Disk, t': Table, i: nat, bn: nat, log: set<nat>)
    requires Shaped(sb, d, t) && Shaped(sb, d', t') && i < |t| && bn < MAXFILE
  {
    var a := Addr(sb, d', t', i, DataSlot(bn));
    && a in log
    && (Addr(sb, d, t, i, DataSlot(bn)) == 0 ==>
          sb.BBlock(a) in log && (bn >= NDIRECT ==> Addr(sb, d', t', i, NDIRECT) in log))
  }

  lemma TouchedMore(sb: Superblock, d: Disk, t: Table, d1: Disk, t1: Table, d2: Disk, t2: Table, i: nat,
                    lo: nat, hi: nat, hi': nat, log: set<nat>, log': set<nat>)
    requires Shaped(sb, d, t) && Shaped(sb, d1, t1) && Shaped(sb, d2, t2) && i < |t| && lo <= hi <= hi' <= MAXFILE
    requires Filled(sb, d, t, d1, t1, i, lo, hi) && Filled(sb, d1, t1, d2, t2, i, hi, hi')
    requires Touched(sb, d, t, d1, t1, i, lo, hi, log) && Touched(sb, d1, t1, d2, t2, i, hi, hi', log') && log <= log'
    ensures Touched(sb, d, t, d2, t2, i, lo, hi', log')
  {
    forall bn | lo <= bn < hi' ensures BlockTouched(sb, d, t, d2, t2, i, bn, log') {
      if bn < hi {
        assert BlockTouched(sb, d, t, d1, t1, i, bn, log);
      } else {
        assert BlockTouched(sb, d1, t1, d2, t2, i, bn, log');
      }
    }
  }

  lemma TouchedThenSame(sb: Superblock, d: Disk, t: Table, d1: Disk, t1: Table, d2: Disk, t2: Table, i: nat,
                        lo: nat, hi: nat, log: set<nat>, log': set<nat>)
    requires Shaped(sb, d, t) && Shaped(sb, d1, t1) && Shaped(sb, d2, t2) && i < |t| && |t| == |t1| && hi <= MAXFILE
    requires Touched(sb, d, t, d1, t1, i, lo, hi, log) && SameAddrs(sb, d1, t1, d2, t2) && log <= log'
    ensures Touched(sb, d, t, d2, t2, i, lo, hi, log')
  {
    forall bn | lo <= bn < hi ensures BlockTouched(sb, d, t, d2, t2, i, bn, log') {
      assert BlockTouched(sb, d, t, d1, t1, i, bn, log);
    }
  }
}
