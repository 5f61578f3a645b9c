/** The format of the disk in its own numbers: which bytes of which blocks are the fields of an inode, the bits of the
    bitmap, the log's header, the entries of a directory and the contents of a file. */
module DiskFormat {
  import opened Bytes
  import opened Volume
  import opened Directory
  import opened LinkCount
  import opened FileSystem
  import opened Sysfile
  import LogDisk

  // ---------------------------------------------------------------- numbers

  /** Two bytes from o on, and four, least significant first. */
  function Two(s: seq<Byte>, o: nat): nat
    requires o + 2 <= |s|
  {
    s[o] as nat + 0x100 * s[o + 1] as nat
  }

  function Four(s: seq<Byte>, o: nat): nat
    requires o + 4 <= |s|
  {
    s[o] as nat + 0x100 * s[o + 1] as nat + 0x1_0000 * s[o + 2] as nat + 0x100_0000 * s[o + 3] as nat
  }

  lemma ValueOfTwo(s: seq<Byte>)
    requires |s| == 2
    ensures LeValue(s) == Two(s, 0)
  {
    assert LeValue(s[1..]) == s[1] as nat + 0x100 * LeValue(s[1..][1..]) && LeValue([]) == 0;
  }

  lemma ValueOfFour(s: seq<Byte>)
    requires |s| == 4
    ensures LeValue(s) == Four(s, 0)
  {
    var u := s[1..];
    var w := u[1..];
    ValueOfTwo(w);
    assert LeValue(s) == s[0] as nat + 0x100 * LeValue(u) && LeValue(u) == u[0] as nat + 0x100 * LeValue(w);
  }

  /** A word of a block is four of its bytes. */
  lemma WordBytes(b: Block, i: nat)
    requires i < WORDS
    ensures GetWord(b, i) == Four(b, 4 * i)
  {
    ValueOfFour(b[4 * i..4 * i + 4]);
  }

  lemma ShortBytes(b: Block, i: nat)
    requires i < WORDS
    ensures GetWord(b, i) % 0x1_0000 == Two(b, 4 * i) && GetWord(b, i) / 0x1_0000 == Two(b, 4 * i + 2)
  {
    WordBytes(b, i);
    Parts(Two(b, 4 * i), Two(b, 4 * i + 2));
  }

  lemma Parts(lo: nat, hi: nat)
    requires lo < 0x1_0000
    ensures (lo + 0x1_0000 * hi) % 0x1_0000 == lo && (lo + 0x1_0000 * hi) / 0x1_0000 == hi
  {
  }

  // ---------------------------------------------------------------- areas

  /** The bitmap takes the fewest blocks with more bits than there are blocks, and the data area follows it; on the
      volume of mkfs, with its log of 30 blocks and 200 inodes, it starts at block 59. */
  lemma Areas(sb: Superblock, n: nat)
    ensures n >= sb.DataStart() - sb.bmapstart <==> 4096 * n > sb.size
    ensures sb == Superblock(1000, 200, 32, 58) ==> sb.DataStart() == 59
  {
    assert sb.size == 4096 * (sb.size / 4096) + sb.size % 4096;
  }

  // ---------------------------------------------------------------- inodes

  /** Inode i is 64 bytes, eight to a block: four shorts, the size and thirteen addresses. */
  lemma InodeFields(sb: Superblock, d: Disk, i: nat)
    requires sb.Ok(d) && i < sb.ninodes
    ensures sb.inodestart + i / 8 < |d|
    ensures var b, o, di := d[sb.inodestart + i / 8], 64 * (i % 8), OnDisk(sb, d, i);
      && di.kind == Two(b, o) && di.major == Two(b, o + 2) && di.minor == Two(b, o + 4) && di.nlink == Two(b, o + 6)
      && di.size == Four(b, o + 8) && forall k :: 0 <= k < 13 ==> di.addrs[k] == Four(b, o + 12 + 4 * k)
  {
    var b, base, ws := d[sb.IBlock(i)], InodeBase(i), GetWords(d[sb.IBlock(i)], InodeBase(i));
    assert 4 * base == 64 * (i % 8);
    ShortBytes(b, base);
    ShortBytes(b, base + 1);
    WordBytes(b, base + 2);
    assert ws[0] == GetWord(b, base) && ws[1] == GetWord(b, base + 1) && ws[2] == GetWord(b, base + 2);
    forall k | 0 <= k < 13 ensures OnDisk(sb, d, i).addrs[k] == Four(b, 4 * base + 12 + 4 * k) {
      WordBytes(b, base + 3 + k);
      assert ws[3..][k] == ws[3 + k] == GetWord(b, base + 3 + k);
    }
  }

  /** A tree on a volume: type 1 is a directory, 0 a free inode, and the link count is a signed short. */
  lemma TreeFields(fs: Fs, v: Tree, i: nat)
    requires Shows(fs, v) && i < |v|
    ensures fs.sb.inodestart + i / 8 < |fs.disk|
    ensures var b, o := fs.disk[fs.sb.inodestart + i / 8], 64 * (i % 8);
      && (v[i].kind == Dir <==> Two(b, o) == 1) && (v[i].kind == Free <==> Two(b, o) == 0)
      && v[i].nlink == if Two(b, o + 6) < 0x8000 then Two(b, o + 6) else Two(b, o + 6) - 0x1_0000
  {
    InodeFields(fs.sb, fs.disk, i);
    assert OnDisk(fs.sb, fs.disk, i) == fs.table[i];
    assert v[i] == NodeAt(fs.sb, fs.disk, fs.table, i);
  }

  // ---------------------------------------------------------------- the bitmap

  function Power(j: nat): nat
    requires j < 8
  {
    [1, 2, 4, 8, 16, 32, 64, 128][j]
  }

  lemma BitIs(x: nat, j: nat)
    requires j < 8
    ensures BitOf(x, j) <==> x / Power(j) % 2 == 1
  {
    if j > 0 {
      assert BitOf(x, j) == BitOf(x / 2, j - 1);
      BitIs(x / 2, j - 1);
      assert x / 2 / Power(j - 1) == x / Power(j);
    }
  }

  /** Block c is in use if its bit is set: 4096 bits to a block, eight to a byte, the lowest first. */
  lemma BitmapBit(sb: Superblock, d: Disk, c: nat)
    requires sb.Ok(d) && c < sb.size
    ensures sb.bmapstart + c / 4096 < |d|
    ensures Used(sb, d, c) <==> d[sb.bmapstart + c / 4096][c % 4096 / 8] / Power(c % 8) % 2 == 1
  {
    assert c % 4096 % 8 == c % 8;
    BitIs(d[sb.bmapstart + c / 4096][c % 4096 / 8], c % 8);
  }

  // ---------------------------------------------------------------- the log's header

  /** The header of the log: a count, and that many block numbers. */
  lemma HeaderFields(h: Block)
    ensures LogDisk.HeaderCount(h) == Four(h, 0)
    ensures LogDisk.HeaderCount(h) <= 30 ==>
      forall k :: 0 <= k < LogDisk.HeaderCount(h) ==> LogDisk.HeaderBlocks(h)[k] == Four(h, 4 + 4 * k)
  {
    WordBytes(h, 0);
    if LogDisk.HeaderCount(h) <= 30 {
      forall k | 0 <= k < LogDisk.HeaderCount(h) ensures LogDisk.HeaderBlocks(h)[k] == Four(h, 4 + 4 * k) {
        WordBytes(h, 1 + k);
      }
    }
  }

  // ---------------------------------------------------------------- directories and files

  /** Entry k of a directory is 16 bytes: the inode number, and fourteen bytes with the name up to a NUL. */
  lemma EntryFields(s: seq<Byte>, k: nat)
    requires |s| % 16 == 0 && 16 * k + 16 <= |s|
    ensures k < |Entries(s)|
    ensures var de := Entries(s)[k];
      && de.inum == Two(s, 16 * k) && |de.name| <= 14
      && (forall j :: 0 <= j < |de.name| ==> de.name[j] == s[16 * k + 2 + j] && de.name[j] != 0)
      && (|de.name| < 14 ==> s[16 * k + 2 + |de.name|] == 0)
  {
    var b := s[16 * k..16 * k + 16];
    assert Entries(s)[k] == Decode(b);
    ValueOfTwo(b[..2]);
    var name := Trim(b[2..]);
    assert forall j :: 0 <= j < |name| ==> name[j] == b[2..][j] == s[16 * k + 2 + j];
  }

  /** Byte p of a file is in the block that one of the twelve addresses gives, or the indirect block. */
  lemma ContentsByte(sb: Superblock, d: Disk, t: Table, i: nat, p: nat)
    requires Wf(sb, d, t) && NoHoles(sb, d, t) && i < |t| && p < t[i].size
    ensures p < 6144 ==> t[i].addrs[p / 512] < |d| && Contents(sb, d, t, i)[p] == d[t[i].addrs[p / 512]][p % 512]
    ensures p >= 6144 ==> t[i].addrs[12] < |d| && p / 512 < 140
    ensures p >= 6144 ==> (var a := Four(d[t[i].addrs[12]], 4 * (p / 512 - 12));
                           a < |d| && Contents(sb, d, t, i)[p] == d[a][p % 512])
  {
    var bn := p / 512;
    var a := Addr(sb, d, t, i, DataSlot(bn));
    assert a != 0 && Contents(sb, d, t, i)[p] == FileByte(sb, d, t, i, p) == d[a][p % 512];
    if bn >= 12 {
      assert Addr(sb, d, t, i, NDIRECT) == t[i].addrs[12];
      WordBytes(d[t[i].addrs[12]], bn - 12);
    }
  }
}
