/** Bytes, 32-bit little-endian words and single bits inside a disk block.
    Every on-disk structure of the file system (log header, indirect block, inode,
    free-block bitmap) is read and written through these accessors. */
module Bytes {
  const BSIZE: nat := 512
  const WORDS: nat := 128        // BSIZE / sizeof(uint)
  const BPB: nat := 4096         // bits per block

  type Byte = x: int | 0 <= x < 256
  type Word = x: int | 0 <= x < 0x1_0000_0000
  type Block = s: seq<Byte> | |s| == BSIZE witness seq(BSIZE, i => 0)

  type Disk = seq<Block>

  function ZeroBlock(): (b: Block)
    ensures forall i :: 0 <= i < BSIZE ==> b[i] == 0
  {
    seq(BSIZE, i => 0)
  }

  /** memmove(b + off, bytes, |bytes|) */
  function Splice(b: seq<Byte>, off: nat, bytes: seq<Byte>): (r: seq<Byte>)
    requires off + |bytes| <= |b|
    ensures |r| == |b|
  {
    b[..off] + bytes + b[off + |bytes|..]
  }

  // ---------------------------------------------------------------- words

  /** The n low bytes of v, least significant first. */
  function LeBytes(v: nat, n: nat): (s: seq<Byte>)
    ensures |s| == n
  {
    if n == 0 then [] else [v % 0x100] + LeBytes(v / 0x100, n - 1)
  }

  function LeValue(s: seq<Byte>): nat {
    if s == [] then 0 else s[0] + 0x100 * LeValue(s[1..])
  }

  /** 0x100 to the n */
  function Radix(n: nat): (r: nat)
    ensures r >= 1
  {
    if n == 0 then 1 else 0x100 * Radix(n - 1)
  }

  lemma {:induction false} LeRoundTrip(v: nat, n: nat)
    requires v < Radix(n)
    ensures LeValue(LeBytes(v, n)) == v
  {
    if n > 0 {
      assert LeBytes(v, n)[1..] == LeBytes(v / 0x100, n - 1);
      LeRoundTrip(v / 0x100, n - 1);
    }
  }

  lemma {:induction false} LeBound(s: seq<Byte>)
    ensures LeValue(s) < Radix(|s|)
  {
    if s != [] {
      LeBound(s[1..]);
    }
  }

  lemma Radix4()
    ensures Radix(4) == 0x1_0000_0000
  {
    assert Radix(2) == 0x1_0000;
  }

  /** The uint at word index i, as ((uint*)bp->data)[i]. */
  function GetWord(b: Block, i: nat): Word
    requires i < WORDS
  {
    var s := b[4 * i..4 * i + 4];
    LeBound(s); Radix4();
    LeValue(s)
  }

  function PutWord(b: Block, i: nat, v: Word): Block
    requires i < WORDS
  {
    Splice(b, 4 * i, LeBytes(v, 4))
  }

  /** A word written is the word read back, and no other word of the block changes. */
  lemma PutGetWord(b: Block, i: nat, v: Word, j: nat)
    requires i < WORDS && j < WORDS
    ensures GetWord(PutWord(b, i, v), j) == if i == j then v else GetWord(b, j)
  {
    var r := PutWord(b, i, v);
    if i == j {
      assert r[4 * i..4 * i + 4] == LeBytes(v, 4);
      Radix4();
      LeRoundTrip(v, 4);
    } else {
      assert r[4 * j..4 * j + 4] == b[4 * j..4 * j + 4];
    }
  }

  lemma {:induction false} LeZero(s: seq<Byte>)
    requires forall i :: 0 <= i < |s| ==> s[i] == 0
    ensures LeValue(s) == 0
  {
    if s != [] {
      LeZero(s[1..]);
    }
  }

  lemma ZeroBlockWord(i: nat)
    requires i < WORDS
    ensures GetWord(ZeroBlock(), i) == 0
  {
    LeZero(ZeroBlock()[4 * i..4 * i + 4]);
  }

  // ---------------------------------------------------------------- bits

  function Pow2(j: nat): (p: nat)
    ensures p >= 1
  {
    if j == 0 then 1 else 2 * Pow2(j - 1)
  }

  /** (x & (1 << j)) != 0 */
  predicate BitOf(x: nat, j: nat) {
    if j == 0 then x % 2 == 1 else BitOf(x / 2, j - 1)
  }

  /** x | (1 << j), on numbers of w bits */
  function OrBit(x: nat, j: nat, w: nat): (r: nat)
    requires x < Pow2(w) && j < w
    ensures r < Pow2(w)
  {
    HalfFits(x, w);
    if j == 0 then x / 2 * 2 + 1 else 2 * OrBit(x / 2, j - 1, w - 1) + x % 2
  }

  lemma HalfFits(x: nat, w: nat)
    requires w > 0
    ensures Pow2(w) == 2 * Pow2(w - 1) && (x < Pow2(w) <==> x / 2 < Pow2(w - 1))
  {
    Halves(x, Pow2(w - 1));
  }

  lemma Halves(x: nat, p: nat)
    ensures x < 2 * p <==> x / 2 < p
  {
  }

  /** x & ~(1 << j) */
  function ClearBit(x: nat, j: nat): (r: nat)
    ensures r <= x
  {
    if j == 0 then x / 2 * 2 else 2 * ClearBit(x / 2, j - 1) + x % 2
  }

  lemma {:induction false} OrBitEffect(x: nat, j: nat, w: nat, k: nat)
    requires x < Pow2(w) && j < w
    ensures BitOf(OrBit(x, j, w), k) == (j == k || BitOf(x, k))
  {
    HalfFits(x, w);
    if j == 0 {
      Doubled(OrBit(x, j, w), x / 2, 1);
    } else {
      Doubled(OrBit(x, j, w), OrBit(x / 2, j - 1, w - 1), x % 2);
      if k > 0 { OrBitEffect(x / 2, j - 1, w - 1, k - 1); }
    }
  }

  lemma Doubled(r: nat, y: nat, b: nat)
    requires r == 2 * y + b && b < 2
    ensures r / 2 == y && r % 2 == b
  {
  }

  lemma {:induction false} ClearBitEffect(x: nat, j: nat, k: nat)
    ensures BitOf(ClearBit(x, j), k) == (j != k && BitOf(x, k))
  {
    if j > 0 && k > 0 {
      ClearBitEffect(x / 2, j - 1, k - 1);
    }
  }

  lemma ByteWidth()
    ensures Pow2(8) == 256
  {
    assert Pow2(4) == 16;
  }

  /** bp->data[bi/8] & (1 << (bi % 8)) */
  predicate TestBit(b: Block, bi: nat)
    requires bi < BPB
  {
    BitOf(b[bi / 8], bi % 8)
  }

  function SetBit(b: Block, bi: nat): Block
    requires bi < BPB
  {
    ByteWidth();
    b[bi / 8 := OrBit(b[bi / 8], bi % 8, 8)]
  }

  function UnsetBit(b: Block, bi: nat): Block
    requires bi < BPB
  {
    b[bi / 8 := ClearBit(b[bi / 8], bi % 8)]
  }

  /** Setting a bit sets that bit and no other. */
  lemma SetBitEffect(b: Block, bi: nat, bj: nat)
    requires bi < BPB && bj < BPB
    ensures TestBit(SetBit(b, bi), bj) == (bi == bj || TestBit(b, bj))
  {
    ByteWidth();
    OrBitEffect(b[bi / 8], bi % 8, 8, bj % 8);
  }

  /** Clearing a bit clears that bit and no other. */
  lemma UnsetBitEffect(b: Block, bi: nat, bj: nat)
    requires bi < BPB && bj < BPB
    ensures TestBit(UnsetBit(b, bi), bj) == (bi != bj && TestBit(b, bj))
  {
    ClearBitEffect(b[bi / 8], bi % 8, bj % 8);
  }
}
