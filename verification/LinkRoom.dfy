/** The links of a file are entries, and entries take room on the volume: on a small volume no link count wraps. */
module LinkRoom {
  import opened Bytes
  import opened Volume
  import opened Space
  import opened FileSystem
  import opened Directory
  import opened LinkCount
  import opened LinkBounds
  import opened Sysfile

  /** The blocks of a file of this size. */
  function Blocks(size: nat): nat { (size + BSIZE - 1) / BSIZE }

  /** How many elements the lists from number n on have. */
  ghost function Length(ls: seq<seq<nat>>, n: nat): nat
    requires n <= |ls|
    decreases |ls| - n
  {
    if n == |ls| then 0 else |ls[n]| + Length(ls, n + 1)
  }

  ghost function Elems(s: seq<nat>): set<nat> { set x | x in s }

  /** The elements of the lists from number n on. */
  ghost function AllElems(ls: seq<seq<nat>>, n: nat): set<nat>
    requires n <= |ls|
    decreases |ls| - n
  {
    if n == |ls| then {} else Elems(ls[n]) + AllElems(ls, n + 1)
  }

  ghost predicate InSome(ls: seq<seq<nat>>, n: nat, x: nat) {
    exists i :: n <= i < |ls| && x in ls[i]
  }

  /** No number is in two lists or twice in one. */
  ghost predicate AllDiffer(ls: seq<seq<nat>>) {
    && (forall i, j, x :: 0 <= i < j < |ls| && x in ls[i] ==> x !in ls[j])
    && forall i, k, l :: 0 <= i < |ls| && 0 <= k < l < |ls[i]| ==> ls[i][k] != ls[i][l]
  }

  lemma {:induction false} ElemsCount(s: seq<nat>)
    requires forall k, l :: 0 <= k < l < |s| ==> s[k] != s[l]
    ensures |Elems(s)| == |s|
  {
    if s == [] {
      assert Elems(s) == {};
    } else {
      var n := |s| - 1;
      ElemsCount(s[..n]);
      assert Elems(s) == Elems(s[..n]) + {s[n]};
    }
  }

  lemma {:induction false} AllElemsCount(ls: seq<seq<nat>>, n: nat)
    requires AllDiffer(ls) && n <= |ls|
    ensures |AllElems(ls, n)| == Length(ls, n) && forall x :: x in AllElems(ls, n) ==> InSome(ls, n, x)
    decreases |ls| - n
  {
    if n < |ls| {
      var m := n + 1;
      AllElemsCount(ls, m);
      ElemsCount(ls[n]);
      forall x | x in AllElems(ls, m) ensures InSome(ls, n, x) && x !in Elems(ls[n]) {
        assert InSome(ls, m, x);
      }
      DisjointCard(Elems(ls[n]), AllElems(ls, m));
    }
  }

  lemma DisjointCard(a: set<nat>, b: set<nat>)
    requires a !! b
    ensures |a + b| == |a| + |b|
  {
  }

  /** The addresses of the blocks of file i. */
  ghost function BlocksOf(sb: Superblock, d: Disk, t: Table, i: nat): (r: seq<nat>)
    requires Shaped(sb, d, t) && NoHoles(sb, d, t) && i < |t|
    ensures |r| == Blocks(t[i].size) <= MAXFILE
    ensures forall bn :: 0 <= bn < |r| ==> r[bn] == Addr(sb, d, t, i, DataSlot(bn)) != 0
  {
    BlocksThere(sb, d, t, i, Blocks(t[i].size));
    seq(Blocks(t[i].size), bn requires 0 <= bn < Blocks(t[i].size) => Addr(sb, d, t, i, DataSlot(bn)))
  }

  lemma BlocksThere(sb: Superblock, d: Disk, t: Table, i: nat, n: nat)
    requires Shaped(sb, d, t) && NoHoles(sb, d, t) && i < |t| && n == Blocks(t[i].size)
    ensures n <= MAXFILE && forall bn :: 0 <= bn < n ==> Addr(sb, d, t, i, DataSlot(bn)) != 0
  {
    forall bn | 0 <= bn < n ensures Addr(sb, d, t, i, DataSlot(bn)) != 0 {
      assert bn * BSIZE < t[i].size;
    }
  }

  lemma BlocksDiffer(sb: Superblock, d: Disk, t: Table, i: nat, bn: nat, j: nat, bm: nat)
    requires Shaped(sb, d, t) && OneOwner(sb, d, t) && NoHoles(sb, d, t) && i < |t| && j < |t|
    requires bn < |BlocksOf(sb, d, t, i)| && bm < |BlocksOf(sb, d, t, j)| && (i, bn) != (j, bm)
    ensures BlocksOf(sb, d, t, i)[bn] != BlocksOf(sb, d, t, j)[bm]
  {
    OnlyOwner(sb, d, t, i, DataSlot(bn));
  }

  /** The addresses of the blocks of every file. */
  ghost function AllBlocks(sb: Superblock, d: Disk, t: Table): (ls: seq<seq<nat>>)
    requires Shaped(sb, d, t) && NoHoles(sb, d, t)
    ensures |ls| == |t| && forall i :: 0 <= i < |t| ==> ls[i] == BlocksOf(sb, d, t, i)
  {
    seq(|t|, i requires 0 <= i < |t| => BlocksOf(sb, d, t, i))
  }

  lemma AllBlocksDiffer(sb: Superblock, d: Disk, t: Table, ls: seq<seq<nat>>)
    requires Shaped(sb, d, t) && OneOwner(sb, d, t) && NoHoles(sb, d, t) && ls == AllBlocks(sb, d, t)
    ensures AllDiffer(ls)
  {
    forall i, j, x | 0 <= i < j < |ls| && x in ls[i] ensures x !in ls[j] {
      var bn :| 0 <= bn < |ls[i]| && ls[i][bn] == x;
      forall bm | 0 <= bm < |ls[j]| ensures ls[j][bm] != x {
        BlocksDiffer(sb, d, t, i, bn, j, bm);
      }
    }
    forall i, k, l | 0 <= i < |ls| && 0 <= k < l < |ls[i]| ensures ls[i][k] != ls[i][l] {
      BlocksDiffer(sb, d, t, i, k, i, l);
    }
  }

  /** Files have no more blocks than the data area. */
  lemma BlocksFit(sb: Superblock, d: Disk, t: Table)
    requires Wf(sb, d, t) && NoHoles(sb, d, t)
    ensures Length(AllBlocks(sb, d, t), 0) <= sb.size - sb.DataStart()
  {
    var ls := AllBlocks(sb, d, t);
    AllBlocksDiffer(sb, d, t, ls);
    AllElemsCount(ls, 0);
    var all := AllElems(ls, 0);
    forall a | a in all ensures sb.DataStart() <= a < sb.size {
      assert InSome(ls, 0, a);
      var i :| 0 <= i < |ls| && a in ls[i];
      var bn :| 0 <= bn < |ls[i]| && ls[i][bn] == a;
      assert a == Addr(sb, d, t, i, DataSlot(bn)) != 0;
    }
    Interval(all, sb.DataStart(), sb.size);
  }

  const PERBLOCK: nat := 32            // entries in a block

  lemma EntriesFit(size: nat)
    ensures size / DESIZE <= PERBLOCK * Blocks(size)
  {
  }

  /** Entries past the dots are in blocks, and the dots of the root take room as well. */
  lemma {:induction false} SlotsFit(v: Tree, ls: seq<seq<nat>>, n: nat)
    requires DirsRight(v) && n <= |v| == |ls|
    requires forall e :: 0 <= e < |v| && v[e].Live() ==> |v[e].entries| <= PERBLOCK * |ls[e]|
    ensures Slots(v, n) + (if n <= ROOTINO then 2 else 0) <= PERBLOCK * Length(ls, n)
    decreases |v| - n
  {
    if n < |v| {
      SlotsFit(v, ls, n + 1);
      if v[n].Live() { assert DotsFirst(v, n); }
    }
  }

  lemma DirFits(fs: Fs, v: Tree, e: nat)
    requires Shows(fs, v) && e < |v| && v[e].Live()
    ensures |v[e].entries| <= PERBLOCK * |BlocksOf(fs.sb, fs.disk, fs.table, e)|
  {
    assert v[e] == NodeAt(fs.sb, fs.disk, fs.table, e);
    EntriesFit(fs.table[e].size);
  }

  /** An inode that is not a directory has at least two links fewer than the data blocks have room for entries. */
  lemma LinksFit(fs: Fs, v: Tree, i: nat)
    requires Shows(fs, v) && Inv(v) && 0 < i < |v| && v[i].kind != Dir
    ensures v[i].nlink + 2 <= PERBLOCK * (fs.sb.size - fs.sb.DataStart())
  {
    FileLinks(v, i, 0);
    forall e | 0 <= e < |v| && v[e].Live()
      ensures |v[e].entries| <= PERBLOCK * |BlocksOf(fs.sb, fs.disk, fs.table, e)|
    {
      DirFits(fs, v, e);
    }
    SlotsFit(v, AllBlocks(fs.sb, fs.disk, fs.table), 0);
    BlocksFit(fs.sb, fs.disk, fs.table);
  }

  /** On a volume with at most 1024 data blocks no link count can wrap, so that link always does what it says. */
  lemma SmallVolumes(fs: Fs, v: Tree, i: nat)
    requires Shows(fs, v) && Inv(v) && 0 < i < |v| && fs.sb.size - fs.sb.DataStart() <= 1024
    ensures v[i].nlink < MAXLINKS
  {
    if v[i].kind == Dir {
      DirCountFits(fs, v, i);
    } else {
      LinksFit(fs, v, i);
    }
  }
}
