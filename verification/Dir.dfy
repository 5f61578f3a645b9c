/** Directories: files holding 16-byte entries. */
module Directory {
  import opened Bytes
  import opened Volume
  import opened Space
  import opened FileSystem

  const DIRSIZ: nat := 14
  const DESIZE: nat := 16              // sizeof(struct dirent)

  /** A file name as the kernel passes it around: no NUL, at most DIRSIZ bytes. */
  type Name = s: seq<Byte> | |s| <= DIRSIZ && 0 !in s witness []

  datatype Dirent = Dirent(inum: Short, name: Name)

  /** The characters of a C string kept in a field: those before the first NUL. */
  function Trim(s: seq<Byte>): (r: seq<Byte>)
    ensures |r| <= |s| && 0 !in r && r == s[..|r|]
    ensures |r| < |s| ==> s[|r|] == 0
  {
    if s == [] || s[0] == 0 then [] else
    var r := Trim(s[1..]);
    assert [s[0]] + r == s[..|r| + 1];
    [s[0]] + r
  }

  /** strncpy pads with NULs. */
  function Pad(s: seq<Byte>, n: nat): (r: seq<Byte>)
    requires |s| <= n
    ensures |r| == n && r[..|s|] == s && forall i :: |s| <= i < n ==> r[i] == 0
  {
    s + seq<Byte>(n - |s|, i => 0)
  }

  lemma {:induction false} TrimPrefix(s: seq<Byte>, n: nat)
    requires n <= |s| && 0 !in s[..n] && (n < |s| ==> s[n] == 0)
    ensures Trim(s) == s[..n]
  {
    if n > 0 {
      assert s[0] == s[..n][0];
      assert s[1..][..n - 1] == s[..n][1..];
      TrimPrefix(s[1..], n - 1);
    }
  }

  lemma TrimPad(name: Name)
    ensures Trim(Pad(name, DIRSIZ)) == name
  {
    TrimPrefix(Pad(name, DIRSIZ), |name|);
  }

  function Decode(b: seq<Byte>): Dirent
    requires |b| == DESIZE
  {
    LeBound(b[..2]); Radix2();
    Dirent(LeValue(b[..2]), Trim(b[2..]))
  }

  function Encode(de: Dirent): (b: seq<Byte>)
    ensures |b| == DESIZE
  {
    LeBytes(de.inum, 2) + Pad(de.name, DIRSIZ)
  }

  lemma Radix2()
    ensures Radix(2) == 0x1_0000
  {
  }

  /** An entry written is the entry read back. */
  lemma DirentRoundTrip(de: Dirent)
    ensures Decode(Encode(de)) == de
  {
    var b := Encode(de);
    assert b[..2] == LeBytes(de.inum, 2) && b[2..] == Pad(de.name, DIRSIZ);
    Radix2();
    LeRoundTrip(de.inum, 2);
    TrimPad(de.name);
  }

  /** The entries of a directory file. */
  function Entries(s: seq<Byte>): (es: seq<Dirent>)
    requires |s| % DESIZE == 0
    ensures |es| == |s| / DESIZE
  {
    seq<Dirent>(|s| / DESIZE, k requires 0 <= k < |s| / DESIZE => Decode(s[DESIZE * k..DESIZE * k + DESIZE]))
  }

  /** es with entry k replaced, or with one more entry when k is its length. */
  function PutEntry(es: seq<Dirent>, k: nat, de: Dirent): seq<Dirent>
    requires k <= |es|
  {
    if k < |es| then es[k := de] else es + [de]
  }

  /** Writing one encoded entry at slot k replaces or appends that entry and no other. */
  lemma OverwriteEntry(s: seq<Byte>, k: nat, de: Dirent)
    requires |s| % DESIZE == 0 && k <= |s| / DESIZE
    ensures DESIZE * k <= |s| && |Overwrite(s, DESIZE * k, Encode(de))| % DESIZE == 0
    ensures Entries(Overwrite(s, DESIZE * k, Encode(de))) == PutEntry(Entries(s), k, de)
  {
    var r := Overwrite(s, DESIZE * k, Encode(de));
    var es := PutEntry(Entries(s), k, de);
    assert |r| % DESIZE == 0 && |Entries(r)| == |es|;
    DirentRoundTrip(de);
    forall j | 0 <= j < |es| ensures Entries(r)[j] == es[j] {
      if j == k {
        assert r[DESIZE * j..DESIZE * j + DESIZE] == Encode(de);
      } else {
        assert r[DESIZE * j..DESIZE * j + DESIZE] == s[DESIZE * j..DESIZE * j + DESIZE];
      }
    }
  }

  // ---------------------------------------------------------------- what lookup and link mean

  /** Entry k is live and has this name. */
  predicate Matches(es: seq<Dirent>, k: nat, name: Name)
    requires k < |es|
  {
    es[k].inum != 0 && es[k].name == name
  }

  /** The first live entry with this name, or |es|. */
  function Find(es: seq<Dirent>, name: Name): (k: nat)
    ensures k <= |es| && (k < |es| ==> Matches(es, k, name))
    ensures forall j :: 0 <= j < k ==> !Matches(es, j, name)
  {
    FindFrom(es, name, 0)
  }

  function FindFrom(es: seq<Dirent>, name: Name, i: nat): (k: nat)
    requires i <= |es|
    ensures i <= k <= |es| && (k < |es| ==> Matches(es, k, name))
    ensures forall j :: i <= j < k ==> !Matches(es, j, name)
    decreases |es| - i
  {
    if i == |es| || Matches(es, i, name) then i else FindFrom(es, name, i + 1)
  }

  /** The first empty slot, or |es|. */
  function FreeSlot(es: seq<Dirent>, i: nat): (k: nat)
    requires i <= |es|
    ensures i <= k <= |es| && (k < |es| ==> es[k].inum == 0)
    ensures forall j :: i <= j < k ==> es[j].inum != 0
    decreases |es| - i
  {
    if i == |es| || es[i].inum == 0 then i else FreeSlot(es, i + 1)
  }

  /** A directory with a new entry in its first empty slot, or at its end if it has none. */
  function AddEntry(es: seq<Dirent>, de: Dirent): seq<Dirent> {
    PutEntry(es, FreeSlot(es, 0), de)
  }

  // ---------------------------------------------------------------- dirlookup and dirlink

  /** dp is a loaded directory of a volume in order. */
  ghost predicate IsDir(fs: Fs, dp: Inode)
    reads fs, dp
  {
    && fs.Valid() && fs.Loaded(dp) && NoHoles(fs.sb, fs.disk, fs.table) && fs.Synced()
    && dp.kind == T_DIR && dp.size % DESIZE == 0
  }

  ghost function EntriesOf(fs: Fs, dp: Inode): seq<Dirent>
    requires IsDir(fs, dp)
    reads fs, dp
  {
    Entries(Contents(fs.sb, fs.disk, fs.table, dp.inum))
  }

  /** Reading a directory changes nothing. */
  twostate predicate Untouched(fs: Fs, dp: Inode)
    reads fs, dp
  {
    fs.disk == old(fs.disk) && fs.logged == old(fs.logged) && fs.table == old(fs.table) && dp.Copy() == old(dp.Copy())
  }

  /** readi of one entry; the whole entry is there, so the panics of dirlookup and dirlink do not happen. */
  method ReadEntry(fs: Fs, dp: Inode, off: nat, ghost es: seq<Dirent>, ghost k: nat) returns (de: Dirent)
    requires IsDir(fs, dp) && es == EntriesOf(fs, dp) && off < dp.size && off == DESIZE * k
    modifies fs`disk, fs`logged, fs`table, dp`addrs
    ensures Untouched(fs, dp) && IsDir(fs, dp) && es == EntriesOf(fs, dp)
    ensures k < |es| && de == es[k]
  {
    var r, b := fs.ReadI(dp, off, DESIZE);
    de := Decode(b);
  }

  /** dirlookup: the first live entry with the name. */
  method DirLookup(fs: Fs, dp: Inode, name: Name) returns (found: bool, off: nat, inum: nat)
    requires IsDir(fs, dp)
    modifies fs`disk, fs`logged, fs`table, dp`addrs
    ensures Untouched(fs, dp) && IsDir(fs, dp) && EntriesOf(fs, dp) == old(EntriesOf(fs, dp))
    ensures var es := old(EntriesOf(fs, dp)); var k := Find(es, name);
      if k < |es| then found && off == DESIZE * k && inum == es[k].inum else !found
  {
    ghost var es, k := EntriesOf(fs, dp), 0;
    off := 0;
    while off < dp.size
      invariant off == DESIZE * k && k <= |es| && dp.size == DESIZE * |es|
      invariant Untouched(fs, dp) && IsDir(fs, dp) && es == EntriesOf(fs, dp)
      invariant Find(es, name) == FindFrom(es, name, k)
    {
      var de := ReadEntry(fs, dp, off, es, k);
      if de.inum != 0 && name == de.name {
        return true, off, de.inum;
      }
      off, k := off + DESIZE, k + 1;
    }
    return false, off, 0;
  }

  /** The scan for an empty entry. */
  method FindEmpty(fs: Fs, dp: Inode) returns (off: nat)
    requires IsDir(fs, dp)
    modifies fs`disk, fs`logged, fs`table, dp`addrs
    ensures Untouched(fs, dp) && IsDir(fs, dp) && EntriesOf(fs, dp) == old(EntriesOf(fs, dp))
    ensures off == DESIZE * FreeSlot(old(EntriesOf(fs, dp)), 0) <= dp.size
  {
    ghost var es, k := EntriesOf(fs, dp), 0;
    off := 0;
    while off < dp.size
      invariant off == DESIZE * k && k <= |es| && dp.size == DESIZE * |es|
      invariant Untouched(fs, dp) && IsDir(fs, dp) && es == EntriesOf(fs, dp)
      invariant FreeSlot(es, 0) == FreeSlot(es, k)
    {
      var de := ReadEntry(fs, dp, off, es, k);
      if de.inum == 0 {
        return;
      }
      off, k := off + DESIZE, k + 1;
    }
  }

  /** The scan of isdirempty for a live entry past the first two. */
  method NoneAfterDots(fs: Fs, dp: Inode, ghost es: seq<Dirent>) returns (empty: bool)
    requires IsDir(fs, dp) && es == EntriesOf(fs, dp)
    modifies fs`disk, fs`logged, fs`table, dp`addrs
    ensures Untouched(fs, dp)
    ensures empty <==> forall j :: 2 <= j < |es| ==> es[j].inum == 0
  {
    ghost var k := 2;
    var off := 2 * DESIZE;
    while off < dp.size
      invariant off == DESIZE * k && k >= 2 && dp.size == DESIZE * |es|
      invariant Untouched(fs, dp) && IsDir(fs, dp) && es == EntriesOf(fs, dp)
      invariant forall j :: 2 <= j < k && j < |es| ==> es[j].inum == 0
    {
      var de := ReadEntry(fs, dp, off, es, k);
      if de.inum != 0 {
        return false;
      }
      off, k := off + DESIZE, k + 1;
    }
    return true;
  }

  // ---------------------------------------------------------------- room for an entry

  /** The block of a directory that has entry k, and the one after it. */
  function EntryBlock(k: nat): nat { DESIZE * k / BSIZE }
  function EntryTop(k: nat): nat { EntryBlock(k) + 1 }

  lemma EntrySpan(k: nat, off: nat)
    requires off == DESIZE * k
    ensures off / BSIZE == EntryBlock(k) && Top(off, DESIZE) == EntryTop(k)
    ensures off + DESIZE <= MAXBYTES ==> EntryTop(k) <= MAXFILE
    ensures off <= MAXBYTES ==> (off + DESIZE) % 0x1_0000_0000 >= off
  {
    var q, m := k / 32, k % 32;
    assert off == q * BSIZE + DESIZE * m && DESIZE * m + DESIZE <= BSIZE;
    assert off / BSIZE == q && (off + DESIZE - 1) / BSIZE == q;
  }

  /** Entry k of directory i can be written: a file can be that large and there are enough free blocks, besides n
      others. */
  ghost predicate EntryFits(sb: Superblock, d: Disk, t: Table, i: nat, k: nat, n: nat)
    requires Shaped(sb, d, t) && i < |t|
  {
    && DESIZE * k + DESIZE <= MAXBYTES && EntryTop(k) <= MAXFILE
    && Missing(sb, d, t, i, EntryBlock(k), EntryTop(k)) + n <= NFree(sb, d)
  }

  /** After n blocks have been taken by others. */
  lemma FitsAfter(sb: Superblock, d: Disk, t: Table, d': Disk, t': Table, i: nat, k: nat, n: nat)
    requires Shaped(sb, d, t) && Shaped(sb, d', t') && i < |t| == |t'| && Took(sb, d, t, d', t', i, n)
    ensures EntryFits(sb, d', t', i, k, 0) <==> EntryFits(sb, d, t, i, k, n)
  {
    if EntryTop(k) <= MAXFILE { TookMissing(sb, d, t, d', t', i, n, EntryBlock(k), EntryTop(k)); }
  }

  /** From (d, t) to (d', t') entry k of directory i has been written, in a block allocated if it was missing. */
  ghost predicate EntryFilled(sb: Superblock, d: Disk, t: Table, d': Disk, t': Table, i: nat, k: nat)
    requires Shaped(sb, d, t) && Shaped(sb, d', t') && i < |t|
  {
    EntryTop(k) <= MAXFILE && Filled(sb, d, t, d', t', i, EntryBlock(k), EntryTop(k))
  }

  /** How many blocks writing entry k logs at most besides the inode's block. */
  function EntryNeed(sb: Superblock, d: Disk, t: Table, i: nat, k: nat): nat
    requires Shaped(sb, d, t) && i < |t|
  {
    if EntryTop(k) <= MAXFILE then Need(sb, d, t, i, EntryBlock(k), EntryTop(k)) else 0
  }

  /** The block of the entry, its bitmap block, the indirect block and its bitmap block. */
  lemma EntryNeeds(sb: Superblock, d: Disk, t: Table, i: nat, k: nat)
    requires Shaped(sb, d, t) && i < |t| && EntryTop(k) <= MAXFILE
    ensures EntryNeed(sb, d, t, i, k) <= 4
    ensures EntryTop(k) <= NDIRECT ==> EntryNeed(sb, d, t, i, k) <= 2
    ensures Addr(sb, d, t, i, DataSlot(EntryBlock(k))) != 0 ==> EntryNeed(sb, d, t, i, k) == 1
  {
    var b := EntryBlock(k);
    assert DataMissing(sb, d, t, i, b, b) == 0;
    assert DataMissing(sb, d, t, i, b, EntryTop(k)) == Gap(sb, d, t, i, DataSlot(b));
  }

  /** The outcome of dirlink: done, the name is taken, or one of the panics (directory at its largest, disk full). */
  datatype LinkResult = Linked | Taken | Panicked

  /** dirlink: a name already present is refused; otherwise the entry goes into the first empty slot, or at the end,
      and nothing else changes in any file. It panics exactly when there is no room for the entry. */
  method DirLink(fs: Fs, dp: Inode, name: Name, inum: Short) returns (r: LinkResult)
    requires IsDir(fs, dp)
    modifies fs`disk, fs`logged, fs`table, dp`addrs, dp`size
    ensures r == Taken <==> Find(old(EntriesOf(fs, dp)), name) < |old(EntriesOf(fs, dp))|
    ensures r == Taken ==> fs.disk == old(fs.disk) && fs.table == old(fs.table)
    ensures r == Linked ==> IsDir(fs, dp) && EntriesOf(fs, dp) == AddEntry(old(EntriesOf(fs, dp)), Dirent(inum, name))
    ensures r == Linked ==> fs.table == old(fs.table)[dp.inum := dp.Copy()]
    ensures r == Linked ==> forall j :: 0 <= j < |fs.table| && j != dp.inum ==>
      Contents(fs.sb, fs.disk, fs.table, j) == Contents(fs.sb, old(fs.disk), old(fs.table), j)
    ensures r != Taken ==>
      (r == Linked <==> EntryFits(fs.sb, old(fs.disk), old(fs.table), dp.inum, FreeSlot(old(EntriesOf(fs, dp)), 0), 0))
    ensures r != Linked ||
      EntryFilled(fs.sb, old(fs.disk), old(fs.table), fs.disk, fs.table, dp.inum, FreeSlot(old(EntriesOf(fs, dp)), 0))
    ensures r == Taken ==> fs.logged == old(fs.logged)
    ensures r != Linked ||
      Adds(old(fs.logged), fs.logged, {fs.sb.IBlock(dp.inum)},
           EntryNeed(fs.sb, old(fs.disk), old(fs.table), dp.inum, FreeSlot(old(EntriesOf(fs, dp)), 0)))
  {
    var found, off, i := DirLookup(fs, dp, name);
    if found {
      return Taken;
    }
    off := FindEmpty(fs, dp);
    var ok := WriteEntry(fs, dp, off, Dirent(inum, name), FreeSlot(old(EntriesOf(fs, dp)), 0));
    return if ok then Linked else Panicked;
  }

  /** writei of one entry. */
  method WriteEntry(fs: Fs, dp: Inode, off: nat, de: Dirent, ghost k: nat) returns (ok: bool)
    requires IsDir(fs, dp) && off == DESIZE * k && off <= dp.size
    modifies fs`disk, fs`logged, fs`table, dp`addrs, dp`size
    ensures off < old(dp.size) ==> ok
    ensures k <= |old(EntriesOf(fs, dp))|
    ensures ok ==> IsDir(fs, dp) && EntriesOf(fs, dp) == PutEntry(old(EntriesOf(fs, dp)), k, de)
    ensures ok ==> fs.table == old(fs.table)[dp.inum := dp.Copy()]
    ensures ok ==> forall j :: 0 <= j < |fs.table| && j != dp.inum ==>
      Contents(fs.sb, fs.disk, fs.table, j) == Contents(fs.sb, old(fs.disk), old(fs.table), j)
    ensures ok <==> EntryFits(fs.sb, old(fs.disk), old(fs.table), dp.inum, k, 0)
    ensures !ok || EntryFilled(fs.sb, old(fs.disk), old(fs.table), fs.disk, fs.table, dp.inum, k)
    ensures !ok || Adds(old(fs.logged), fs.logged, {fs.sb.IBlock(dp.inum)},
                        EntryNeed(fs.sb, old(fs.disk), old(fs.table), dp.inum, k))
    ensures ok ==> Addr(fs.sb, fs.disk, fs.table, dp.inum, DataSlot(EntryBlock(k))) in fs.logged
  {
    OverwriteEntry(Contents(fs.sb, fs.disk, fs.table, dp.inum), k, de);
    EntrySpan(k, off);
    ghost var d, t := fs.disk, fs.table;
    var w := fs.WriteI(dp, Encode(de), off);
    ok := w == Count(DESIZE);
    if ok {
      assert BlockTouched(fs.sb, d, t, fs.disk, fs.table, dp.inum, EntryBlock(k), fs.logged);
    }
  }
}
