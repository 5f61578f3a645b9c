/** The buffer cache: NBUF buffers on a doubly linked list kept in order of last use, in front of
    the disk. */
module BufferCache {
  import opened Bytes
  import opened LogDisk

  const NBUF: nat := 30        // MAXOPBLOCKS * 3
  const ROOTDEV: nat := 1

  class Buf {
    var valid: bool           // B_VALID
    var dirty: bool           // B_DIRTY
    var dev: nat
    var blockno: nat
    var locked: bool          // held through its sleep lock
    var refcnt: nat
    var prev: Buf?
    var next: Buf?
    var data: Block
    ghost var released: nat   // when refcnt last dropped to zero, 0 for never

    constructor ()
      ensures !valid && !dirty && dev == 0 && blockno == 0 && !locked && refcnt == 0 && released == 0
    {
      valid, dirty, dev, blockno, locked, refcnt, prev, next := false, false, 0, 0, false, 0, null, null;
      data, released := ZeroBlock(), 0;
    }
  }

  predicate Distinct(s: seq<Buf>) {
    forall i, j :: 0 <= i < j < |s| ==> s[i] != s[j]
  }

  /** The i-th node after the head, which is also the one after the last buffer. */
  function Node(head: Buf, ring: seq<Buf>, i: int): Buf {
    if 1 <= i <= |ring| then ring[i - 1] else head
  }

  /** next and prev link head and the buffers of ring, in this order, into one cycle. */
  ghost predicate Linked(head: Buf, ring: seq<Buf>)
    reads head`next, head`prev, ring`next, ring`prev
  {
    forall i {:trigger Node(head, ring, i)} :: 0 <= i <= |ring| ==>
      && Node(head, ring, i).next == Node(head, ring, i + 1)
      && Node(head, ring, i + 1).prev == Node(head, ring, i)
  }

  /** ring with buffer k moved to the front. */
  function Fronted(ring: seq<Buf>, k: nat): seq<Buf>
    requires k < |ring|
  {
    [ring[k]] + (ring[..k] + ring[k + 1..])
  }

  lemma FrontedAt(ring: seq<Buf>, k: nat, i: nat)
    requires k < |ring| && i < |ring|
    ensures |Fronted(ring, k)| == |ring|
    ensures Fronted(ring, k)[i] == if i == 0 then ring[k] else if i <= k then ring[i - 1] else ring[i]
  {
  }

  lemma FrontedSame(ring: seq<Buf>, k: nat)
    requires Distinct(ring) && k < |ring|
    ensures Distinct(Fronted(ring, k)) && Distinct(ring[..k] + ring[k + 1..])
    ensures ring[k] !in ring[..k] + ring[k + 1..]
    ensures forall x :: x in ring ==> x in Fronted(ring, k)
    ensures forall x :: x in ring[..k] + ring[k + 1..] ==> x in ring
  {
    var r := Fronted(ring, k);
    forall x | x in ring ensures x in r {
      var i :| 0 <= i < |ring| && ring[i] == x;
      assert r[if i < k then i + 1 else if i == k then 0 else i] == x;
    }
  }

  lemma {:induction false} DistinctCard(s: seq<Buf>)
    requires Distinct(s)
    ensures |set b | b in s| == |s|
  {
    if s != [] {
      var t := s[..|s| - 1];
      DistinctCard(t);
      assert (set b | b in s) == (set b | b in t) + {s[|s| - 1]};
    }
  }

  /** Later released buffers first, then those never released. */
  ghost predicate Ordered(ring: seq<Buf>, clock: nat)
    reads ring`released
  {
    && (forall i :: 0 <= i < |ring| ==> ring[i].released <= clock)
    && forall i, j :: 0 <= i < j < |ring| ==>
         ring[i].released > ring[j].released || ring[i].released == ring[j].released == 0
  }

  /** Drop buffer k from the list. */
  method Unlink(head: Buf, ghost ring: seq<Buf>, b: Buf, ghost k: nat)
    requires Linked(head, ring) && Distinct(ring) && head !in ring
    requires k < |ring| && ring[k] == b
    modifies head`next, head`prev, ring`next, ring`prev
    ensures Linked(head, ring[..k] + ring[k + 1..])
  {
    ghost var p, n := Node(head, ring, k), Node(head, ring, k + 2);
    assert Node(head, ring, k + 1) == b;
    b.next.prev := b.prev;
    b.prev.next := b.next;
    ghost var r := ring[..k] + ring[k + 1..];
    forall i | 0 <= i <= |r|
      ensures Node(head, r, i).next == Node(head, r, i + 1) && Node(head, r, i + 1).prev == Node(head, r, i)
    {
      if i < k {
        assert Node(head, r, i) == Node(head, ring, i) && Node(head, r, i + 1) == Node(head, ring, i + 1);
      } else if i == k {
        assert Node(head, r, i) == p && Node(head, r, i + 1) == n;
      } else {
        assert Node(head, r, i) == Node(head, ring, i + 1) && Node(head, r, i + 1) == Node(head, ring, i + 2);
      }
    }
  }

  /** Insert b right after the head. */
  method PushFront(head: Buf, ghost ring: seq<Buf>, b: Buf)
    requires Linked(head, ring) && Distinct(ring) && head !in ring && b !in ring && b != head
    modifies head`next, head`prev, ring`next, ring`prev, b`next, b`prev
    ensures Linked(head, [b] + ring)
  {
    ghost var n := Node(head, ring, 1);
    assert Node(head, ring, 0) == head;
    b.next := head.next;
    b.prev := head;
    head.next.prev := b;
    head.next := b;
    ghost var r := [b] + ring;
    forall i | 0 <= i <= |r|
      ensures Node(head, r, i).next == Node(head, r, i + 1) && Node(head, r, i + 1).prev == Node(head, r, i)
    {
      if i >= 2 {
        assert Node(head, r, i) == Node(head, ring, i - 1) && Node(head, r, i + 1) == Node(head, ring, i);
      }
    }
  }

  class BCache {
    const head: Buf
    const bufs: set<Buf>             // bcache.buf
    var disk: Disk
    ghost var ring: seq<Buf>         // the list, most recently released buffer first
    ghost var latest: Disk           // the current contents of every block
    ghost const origin: Disk         // the disk before the first write
    ghost var writes: seq<Write>     // every block write so far, first to last
    ghost var clock: nat

    ghost predicate OnList(b: Buf)
      reads this`ring
    {
      b in ring
    }

    /** Which buffers there are and how they are linked. */
    ghost predicate ListInv()
      reads this`ring, head`next, head`prev, ring`next, ring`prev
    {
      && head !in bufs && |ring| == NBUF && Distinct(ring)
      && (forall i :: 0 <= i < |ring| ==> ring[i] in bufs) && (forall b {:trigger OnList(b)} :: b in bufs ==> OnList(b))
      && Linked(head, ring)
    }

    /** No two buffers hold the same block; the untouched buffers of a fresh cache all say (0, 0). */
    ghost predicate UniqueInv()
      reads bufs`dev, bufs`blockno
    {
      forall b, c :: b in bufs && c in bufs && b != c && b.dev == c.dev && b.blockno == c.blockno ==>
        b.dev == 0 && b.blockno == 0
    }

    /** Block n has a buffer with its contents. */
    ghost predicate Cached(n: nat)
      reads bufs`valid, bufs`blockno
    {
      exists b :: b in bufs && b.valid && b.blockno == n
    }

    /** A valid buffer has the current contents of its block; a clean one nobody is working on agrees
        with the disk. */
    ghost predicate Coherent(b: Buf)
      reads this`disk, this`latest, b`valid, b`dirty, b`locked, b`dev, b`blockno, b`data
    {
      if b.valid then
        && b.dev == ROOTDEV && b.blockno < |latest| == |disk| && b.data == latest[b.blockno]
        && (b.dirty || b.locked || b.data == disk[b.blockno])
      else !b.dirty && !b.locked
    }

    ghost predicate CoherenceInv()
      reads this`disk, this`latest, bufs`valid, bufs`dirty, bufs`locked, bufs`dev, bufs`blockno, bufs`data
    {
      forall b :: b in bufs ==> Coherent(b)
    }

    /** A block whose contents differ from the disk's is in the cache. */
    ghost predicate NothingLost()
      reads this`disk, this`latest, bufs`valid, bufs`blockno
    {
      |latest| == |disk| && forall n :: 0 <= n < |disk| && latest[n] != disk[n] ==> Cached(n)
    }

    /** A buffer in somebody's hands is referenced. */
    ghost predicate HeldInv()
      reads bufs`locked, bufs`refcnt
    {
      forall b :: b in bufs && b.locked ==> b.refcnt > 0
    }

    /** The list half of the invariant, about ring, next, prev and released only. */
    ghost predicate ListValid()
      reads this`ring, this`clock, head`next, head`prev, ring`next, ring`prev, ring`released
    {
      ListInv() && Ordered(ring, clock)
    }

    /** The data half, about everything else. */
    ghost predicate DataValid()
      reads this`disk, this`latest
      reads bufs`valid, bufs`dirty, bufs`locked, bufs`dev, bufs`blockno, bufs`data, bufs`refcnt
    {
      UniqueInv() && CoherenceInv() && NothingLost() && HeldInv()
    }

    /** The disk is what the writes so far have made of it. */
    ghost predicate HistoryInv()
      reads this`disk, this`writes
    {
      InRange(|origin|, writes) && disk == After(origin, writes, |writes|)
    }

    ghost predicate Valid()
      reads this, head, bufs, ring
    {
      ListValid() && DataValid() && HistoryInv()
    }

    /** binit, with the disk the cache is put in front of. */
    constructor (disk: Disk)
      ensures Valid() && fresh(head) && (forall b :: b in bufs ==> fresh(b))
      ensures this.disk == latest == disk && writes == []
      ensures forall b :: b in bufs ==> !b.valid && !b.dirty && !b.locked && b.refcnt == 0
    {
      var h := new Buf();
      h.prev, h.next := h, h;
      var bs: set<Buf> := {};
      ghost var r: seq<Buf> := [];
      for i := 0 to NBUF
        invariant fresh(h) && |r| == i && Distinct(r) && h !in bs && h !in r
        invariant (forall j :: 0 <= j < i ==> r[j] in bs) && (forall b :: b in bs ==> b in r)
        invariant (forall b :: b in bs ==> fresh(b)) && (forall j :: 0 <= j < |r| ==> fresh(r[j]))
        invariant forall b :: b in bs ==>
          !b.valid && !b.dirty && b.dev == 0 && b.blockno == 0 && !b.locked && b.refcnt == 0 && b.released == 0
        invariant Linked(h, r)
      {
        var b := new Buf();
        PushFront(h, r, b);
        bs, r := bs + {b}, [b] + r;
      }
      head, bufs, this.disk := h, bs, disk;
      ring, latest, origin, writes, clock := r, disk, disk, [], 0;
    }

    /** A buffer bget may take for another block. */
    ghost predicate Recyclable(b: Buf)
      reads b`refcnt, b`dirty
    {
      b.refcnt == 0 && !b.dirty
    }

    /** b is the buffer for block (dev, blockno). */
    ghost predicate Holds(b: Buf, dev: nat, blockno: nat)
      reads b`dev, b`blockno
    {
      b.dev == dev && b.blockno == blockno
    }

    /** First loop of bget: is the block already cached? */
    method Find(dev: nat, blockno: nat) returns (b: Buf?)
      requires ListInv()
      ensures b != null ==> b in bufs && Holds(b, dev, blockno)
      ensures b == null ==> forall x :: x in bufs ==> !Holds(x, dev, blockno)
    {
      var x := head.next;
      ghost var i := 0;
      assert Node(head, ring, 0) == head;
      while x != head
        invariant 0 <= i <= NBUF && x == Node(head, ring, i + 1)
        invariant forall j :: 0 <= j < i ==> !Holds(ring[j], dev, blockno)
        decreases NBUF - i
      {
        assert x == ring[i] && x in bufs;
        if x.dev == dev && x.blockno == blockno {
          return x;
        }
        x := x.next;
        i := i + 1;
      }
      forall y | y in bufs ensures !Holds(y, dev, blockno) { assert OnList(y); }
      return null;
    }

    /** The recyclable buffer that is last on the list was released before the others, or never held. */
    lemma LastIsOldest(i: nat)
      requires ListInv() && Ordered(ring, clock) && 1 <= i <= NBUF
      requires forall j :: i <= j < NBUF ==> !Recyclable(ring[j])
      ensures forall y :: y in bufs && y != ring[i - 1] && Recyclable(y) ==>
        ring[i - 1].released < y.released || ring[i - 1].released == 0
    {
      forall y | y in bufs && y != ring[i - 1] && Recyclable(y)
        ensures ring[i - 1].released < y.released || ring[i - 1].released == 0
      {
        assert OnList(y);
      }
    }

    /** Second loop of bget: the unreferenced clean buffer nearest the tail of the list, which is the one
        whose last drop to zero references is oldest, buffers never released coming first. */
    method FindVictim() returns (b: Buf?)
      requires ListInv() && Ordered(ring, clock)
      ensures b != null ==> b in bufs && Recyclable(b)
      ensures b != null ==> forall x :: x in bufs && x != b && Recyclable(x) ==>
                b.released < x.released || b.released == 0
      ensures b == null ==> forall x :: x in bufs ==> !Recyclable(x)
    {
      var x := head.prev;
      ghost var i := NBUF;
      assert Node(head, ring, NBUF + 1) == head && Node(head, ring, NBUF) == x;
      while x != head
        invariant 0 <= i <= NBUF && x == Node(head, ring, i)
        invariant forall j :: i <= j < NBUF ==> !Recyclable(ring[j])
        decreases i
      {
        assert x == ring[i - 1] && x in bufs;
        if x.refcnt == 0 && !x.dirty {
          LastIsOldest(i);
          return x;
        }
        assert Node(head, ring, i - 1) == x.prev;
        x := x.prev;
        i := i - 1;
      }
      forall y | y in bufs ensures !Recyclable(y) { assert OnList(y); }
      return null;
    }

    /** The buffer that holds block (dev, blockno), or else the recyclable buffer released longest ago, set
        up for that block; null, the panic, exactly when there is neither. No block loses its contents. */
    method BGet(dev: nat, blockno: nat) returns (b: Buf?)
      requires Valid()
      modifies bufs`dev, bufs`blockno, bufs`valid, bufs`refcnt
      ensures DataValid() && Pinned() == old(Pinned())
      ensures forall x :: x in bufs && x != b ==> unchanged(x)
      ensures b == null <==>
                && (forall x :: x in bufs ==> !old(Holds(x, dev, blockno)))
                && (forall x :: x in bufs ==> !old(Recyclable(x)))
      ensures b != null ==> b in bufs && Holds(b, dev, blockno) && b.refcnt == old(b.refcnt) + 1
      ensures b != null && old(Holds(b, dev, blockno)) ==> b.valid == old(b.valid)
      ensures b != null && !old(Holds(b, dev, blockno)) ==>
                && (forall x :: x in bufs ==> !old(Holds(x, dev, blockno)))
                && old(Recyclable(b)) && !b.valid
                && (forall x :: x in bufs && x != b && old(Recyclable(x)) ==>
                     b.released < x.released || b.released == 0)
    {
      b := Find(dev, blockno);
      if b != null {
        Reference(b);
      } else {
        b := FindVictim();
        if b != null {
          Recycle(b, dev, blockno);
        }
      }
    }

    method Reference(b: Buf)
      requires DataValid() && b in bufs
      modifies b`refcnt
      ensures DataValid() && b.refcnt == old(b.refcnt) + 1
    {
      b.refcnt := b.refcnt + 1;
    }

    /** Forget the contents of a clean buffer nobody is using: the disk has them. */
    method Invalidate(b: Buf)
      requires CoherenceInv() && NothingLost() && b in bufs && !b.locked && !b.dirty
      modifies b`valid
      ensures CoherenceInv() && NothingLost() && !b.valid
    {
      b.valid := false;
      forall n | 0 <= n < |disk| && latest[n] != disk[n] ensures Cached(n) {
        var x :| x in bufs && old(x.valid) && old(x.blockno) == n;
        assert x != b && x.valid && x.blockno == n;
      }
    }

    /** Give an empty buffer to a block that no buffer holds. */
    method Retarget(b: Buf, dev: nat, blockno: nat)
      requires UniqueInv() && CoherenceInv() && NothingLost() && b in bufs && !b.valid
      requires forall x :: x in bufs ==> !Holds(x, dev, blockno)
      modifies b`dev, b`blockno
      ensures UniqueInv() && CoherenceInv() && NothingLost() && Holds(b, dev, blockno)
    {
      b.dev, b.blockno := dev, blockno;
      assert NothingLost() by {
        forall n | 0 <= n < |disk| && latest[n] != disk[n] ensures Cached(n) {
          var x :| x in bufs && x.valid && old(x.blockno) == n;
          assert x != b && x.valid && x.blockno == n;
        }
      }
    }

    method Recycle(b: Buf, dev: nat, blockno: nat)
      requires DataValid() && b in bufs && Recyclable(b)
      requires forall x :: x in bufs ==> !Holds(x, dev, blockno)
      modifies b`dev, b`blockno, b`valid, b`refcnt
      ensures DataValid() && Holds(b, dev, blockno) && !b.valid && b.refcnt == 1
      ensures Pinned() == old(Pinned())
    {
      Invalidate(b);
      Retarget(b, dev, blockno);
      b.refcnt := 1;
    }

    /** The blocks with a modified buffer that bget must not recycle. */
    ghost function Pinned(): set<nat>
      reads bufs`dirty, bufs`blockno
    {
      set b | b in bufs && b.dirty :: b.blockno
    }

    /** A locked buffer with the current contents of the block; null when bget panics. */
    method BRead(dev: nat, blockno: nat) returns (b: Buf?)
      requires Valid() && dev == ROOTDEV && blockno < |disk|
      requires forall x :: x in bufs && Holds(x, dev, blockno) ==> !x.locked
      modifies bufs`dev, bufs`blockno, bufs`valid, bufs`refcnt, bufs`locked, bufs`data
      ensures DataValid()
      ensures b == null <==>
                && (forall x :: x in bufs ==> !old(Holds(x, dev, blockno)))
                && (forall x :: x in bufs ==> !old(Recyclable(x)))
      ensures forall x :: x in bufs && x != b ==> unchanged(x)
      ensures b != null ==> b in bufs && Holds(b, dev, blockno) && b.locked && b.valid
      ensures b != null ==> b.refcnt == old(b.refcnt) + 1 && !old(b.locked)
      ensures b != null && !old(Holds(b, dev, blockno)) ==> old(Recyclable(b))
      ensures b != null ==> b.data == latest[blockno] && (b.dirty || b.data == disk[blockno])
      ensures Pinned() == old(Pinned())
    {
      b := BGet(dev, blockno);
      if b != null {
        Fill(b);
      }
    }

    /** A block whose only buffer is still empty has its contents on disk. */
    lemma EmptyMeansOnDisk(b: Buf)
      requires UniqueInv() && CoherenceInv() && NothingLost()
      requires b in bufs && !b.valid && b.dev == ROOTDEV && b.blockno < |disk|
      ensures latest[b.blockno] == disk[b.blockno]
    {
      assert !Cached(b.blockno);
    }

    /** iderw on a buffer that has no contents yet. */
    method Load(b: Buf)
      requires UniqueInv() && CoherenceInv() && NothingLost()
      requires b in bufs && !b.valid && b.dev == ROOTDEV && b.blockno < |disk|
      modifies b`data, b`valid
      ensures CoherenceInv() && NothingLost() && b.valid
    {
      EmptyMeansOnDisk(b);
      b.data := disk[b.blockno];
      b.valid := true;
      assert forall n: nat :: old(Cached(n)) ==> Cached(n);
    }

    /** acquiresleep, and iderw if the buffer has no contents yet. */
    method Fill(b: Buf)
      requires DataValid() && b in bufs && b.refcnt > 0 && !b.locked && b.dev == ROOTDEV && b.blockno < |disk|
      modifies b`locked, b`data, b`valid
      ensures DataValid() && b.locked && b.valid && b.data == latest[b.blockno]
      ensures b.dirty || b.data == disk[b.blockno]
    {
      if !b.valid {
        Load(b);
      }
      assert Coherent(b);
      b.locked := true;
    }

    /** The holder of a buffer changes its contents. */
    method Store(b: Buf, data: Block)
      requires DataValid() && b in bufs && b.locked
      modifies this`latest, b`data
      ensures DataValid() && b.data == data && latest == old(latest)[b.blockno := data]
    {
      b.data := data;
      latest := latest[b.blockno := data];
      assert Cached(b.blockno);
      assert forall n: nat :: old(Cached(n)) ==> Cached(n);
    }

    /** Write the contents to the block's home on disk; the buffer is clean again. */
    method BWrite(b: Buf)
      requires DataValid() && HistoryInv() && b in bufs && b.locked
      modifies this`disk, this`writes, b`dirty
      ensures DataValid() && HistoryInv() && !b.dirty
      ensures disk == old(disk)[b.blockno := b.data]
      ensures writes == old(writes) + [Write(b.blockno, b.data)]
      ensures Pinned() == old(Pinned()) - {b.blockno}
    {
      OnlyBuffer(b);
      AfterSnoc(origin, writes, Write(b.blockno, b.data));
      writes := writes + [Write(b.blockno, b.data)];
      b.dirty := false;
      disk := disk[b.blockno := b.data];
      assert Pinned() == old(Pinned()) - {b.blockno};
    }

    lemma OnlyBuffer(b: Buf)
      requires UniqueInv() && CoherenceInv() && b in bufs && b.valid
      ensures forall x :: x in bufs && x != b && x.valid ==> x.blockno != b.blockno
    {
    }

    /** Release a buffer whose change, if any, has been written or logged. The last release moves it to
        the front of the list. */
    method BRelse(b: Buf)
      requires ListValid() && DataValid() && b in bufs && b.locked
      requires b.dirty || b.data == disk[b.blockno]
      modifies this`ring, this`clock, head`next, head`prev, bufs`next, bufs`prev
      modifies b`locked, b`refcnt, b`released
      ensures ListValid() && DataValid() && !b.locked && b.refcnt == old(b.refcnt) - 1
      ensures b.refcnt > 0 ==> ring == old(ring)
      ensures b.refcnt == 0 ==>
                exists k :: 0 <= k < |old(ring)| && old(ring)[k] == b && ring == Fronted(old(ring), k)
    {
      Unlock(b);
      if b.refcnt == 0 {
        MoveToFront(b);
      }
    }

    /** releasesleep and the drop of the reference. */
    method Unlock(b: Buf)
      requires DataValid() && b in bufs && b.locked
      requires b.dirty || b.data == disk[b.blockno]
      modifies b`locked, b`refcnt
      ensures DataValid() && !b.locked && b.refcnt == old(b.refcnt) - 1
    {
      b.locked := false;
      b.refcnt := b.refcnt - 1;
    }

    method MoveToFront(b: Buf)
      requires ListValid() && b in bufs
      modifies this`ring, this`clock, head`next, head`prev, bufs`next, bufs`prev, b`released
      ensures ListValid()
      ensures exists k :: 0 <= k < |old(ring)| && old(ring)[k] == b && ring == Fronted(old(ring), k)
    {
      assert OnList(b);
      ghost var k :| 0 <= k < |ring| && ring[k] == b;
      Relink(b, k);
      Stamp(b, k);
      FrontedSame(old(ring), k);
      forall i | 0 <= i < |ring| ensures ring[i] in bufs { FrontedAt(old(ring), k, i); }
      forall x | x in bufs ensures OnList(x) { assert old(OnList(x)); }
    }

    /** The pointer updates at the end of brelse. */
    method Relink(b: Buf, ghost k: nat)
      requires ListInv() && k < |ring| && ring[k] == b
      modifies head`next, head`prev, bufs`next, bufs`prev
      ensures Linked(head, Fronted(ring, k))
    {
      FrontedSame(ring, k);
      Unlink(head, ring, b, k);
      PushFront(head, ring[..k] + ring[k + 1..], b);
    }

    ghost method Stamp(b: Buf, k: nat)
      requires k < |ring| && ring[k] == b && Distinct(ring) && Ordered(ring, clock)
      modifies this`ring, this`clock, b`released
      ensures clock == old(clock) + 1 && b.released == clock && ring == Fronted(old(ring), k)
      ensures Ordered(ring, clock)
    {
      clock := clock + 1;
      b.released := clock;
      ring := Fronted(ring, k);
      forall i | 0 <= i < |ring| ensures ring[i].released <= clock { FrontedAt(old(ring), k, i); }
      forall i, j | 0 <= i < j < |ring|
        ensures ring[i].released > ring[j].released || ring[i].released == ring[j].released == 0
      {
        FrontedAt(old(ring), k, i);
        FrontedAt(old(ring), k, j);
      }
    }

    // -------------------------------------------------------------- copying a block

    ghost predicate NoLocks()
      reads bufs`locked
    {
      forall b :: b in bufs ==> !b.locked
    }

    /** Enough buffers to hold two blocks at once, the second of which may be pinned in the cache:
        x, and y besides unless the second block is pinned, can be recycled. */
    ghost predicate RoomForPair(second: nat, x: Buf, y: Buf)
      reads x`refcnt, x`dirty, y`refcnt, y`dirty, bufs`dirty, bufs`blockno
    {
      x in bufs && y in bufs && Recyclable(x) && (second in Pinned() || (x != y && Recyclable(y)))
    }

    /** Read one block when buffer x could be recycled for it. */
    method ReadOne(n: nat, ghost x: Buf, ghost y: Buf) returns (b: Buf)
      requires Valid() && NoLocks() && n < |disk| && x in bufs && y in bufs && Recyclable(x)
      modifies bufs`dev, bufs`blockno, bufs`valid, bufs`refcnt, bufs`locked, bufs`data
      ensures Valid() && Pinned() == old(Pinned()) && b in bufs && b.locked && b.blockno == n
      ensures b.data == latest[n] && (b.dirty || b.data == disk[n])
      ensures forall z :: z in bufs && z != b ==> !z.locked
      ensures !x.dirty && x.refcnt == if x == b then 1 else 0
      ensures old(Recyclable(y)) ==> !y.dirty && y.refcnt == if y == b then 1 else 0
    {
      var c := BRead(ROOTDEV, n);
      b := c;
    }

    /** Read two blocks, as both write_log and install_trans begin each round. */
    method ReadPair(first: nat, second: nat, ghost x: Buf, ghost y: Buf) returns (f: Buf, s: Buf)
      requires Valid() && NoLocks() && first < |disk| && second < |disk| && first != second
      requires RoomForPair(second, x, y)
      modifies bufs`dev, bufs`blockno, bufs`valid, bufs`refcnt, bufs`locked, bufs`data
      ensures Valid() && Pinned() == old(Pinned())
      ensures f in bufs && s in bufs && f != s && f.blockno == first && s.blockno == second
      ensures f.locked && s.locked
      ensures f.data == latest[first] && (f.dirty || f.data == disk[first])
      ensures s.data == latest[second] && (s.dirty || s.data == disk[second])
      ensures forall z :: z in bufs && z != f && z != s ==> !z.locked
      ensures !x.dirty && x.refcnt == if x == f || x == s then 1 else 0
      ensures old(Recyclable(y)) ==> !y.dirty && y.refcnt == if y == f || y == s then 1 else 0
    {
      f := ReadOne(first, x, y);
      var b := BRead(ROOTDEV, second);
      s := b;
    }

    /** No buffer but b is in use. */
    ghost predicate InUse(b: Buf)
      reads bufs`refcnt, bufs`locked, b`refcnt, b`locked
    {
      b.refcnt == 1 && b.locked && forall z :: z in bufs && z != b ==> z.refcnt == 0 && !z.locked
    }

    /** Read one block when no buffer is in use and one can be recycled. */
    method ReadAlone(n: nat, ghost x: Buf) returns (b: Buf)
      requires Valid() && n < |disk| && x in bufs && Recyclable(x)
      requires forall z :: z in bufs ==> z.refcnt == 0 && !z.locked
      modifies bufs`dev, bufs`blockno, bufs`valid, bufs`refcnt, bufs`locked, bufs`data
      ensures Valid() && Pinned() == old(Pinned()) && b in bufs && b.blockno == n && InUse(b)
      ensures b.dirty || b.data == disk[n]
    {
      var c := BRead(ROOTDEV, n);
      b := c;
    }

    /** The contents of a block, leaving no trace but in the order of the list. */
    method Peek(n: nat, ghost x: Buf, ghost y: Buf) returns (data: Block)
      requires Valid() && NoLocks() && n < |disk| && x in bufs && y in bufs && Recyclable(x)
      modifies this`ring, this`clock, head, bufs
      ensures Valid() && NoLocks() && Recyclable(x) && (old(Recyclable(y)) ==> Recyclable(y))
      ensures Pinned() == old(Pinned()) && data == latest[n]
    {
      var b := ReadOne(n, x, y);
      data := b.data;
      BRelse(b);
    }

    /** Change a buffer and write it to disk at once. */
    method Overwrite(b: Buf, data: Block)
      requires DataValid() && HistoryInv() && b in bufs && b.locked
      modifies this`disk, this`latest, this`writes, b`dirty, b`data
      ensures DataValid() && HistoryInv() && !b.dirty && b.data == data
      ensures disk == old(disk)[b.blockno := data] && latest == old(latest)[b.blockno := data]
      ensures writes == old(writes) + [Write(b.blockno, data)]
      ensures Pinned() == old(Pinned()) - {b.blockno}
    {
      Store(b, data);
      BWrite(b);
    }

    method ReleasePair(a: Buf, b: Buf)
      requires ListValid() && DataValid() && a in bufs && b in bufs && a != b && a.locked && b.locked
      requires (a.dirty || a.data == disk[a.blockno]) && (b.dirty || b.data == disk[b.blockno])
      modifies this`ring, this`clock, head`next, head`prev, bufs`next, bufs`prev
      modifies a`locked, a`refcnt, a`released, b`locked, b`refcnt, b`released
      ensures ListValid() && DataValid()
      ensures !a.locked && !b.locked && a.refcnt == old(a.refcnt) - 1 && b.refcnt == old(b.refcnt) - 1
    {
      BRelse(a);
      BRelse(b);
    }

    /** Copy src's contents to dst, write dst to disk and release both. */
    method CopyAndRelease(src: Buf, dst: Buf)
      requires Valid() && src in bufs && dst in bufs && src != dst && src.locked && dst.locked
      requires forall z :: z in bufs && z != src && z != dst ==> !z.locked
      requires src.dirty || src.data == disk[src.blockno]
      modifies this`disk, this`latest, this`writes, this`ring, this`clock
      modifies head`next, head`prev, bufs`next, bufs`prev
      modifies src`locked, src`refcnt, src`released, dst`locked, dst`refcnt, dst`released, dst`dirty, dst`data
      ensures Valid() && NoLocks()
      ensures disk == old(disk)[dst.blockno := src.data] && latest == old(latest)[dst.blockno := src.data]
      ensures writes == old(writes) + [Write(dst.blockno, src.data)]
      ensures Pinned() == old(Pinned()) - {dst.blockno} && !dst.dirty
      ensures !src.locked && !dst.locked && src.refcnt == old(src.refcnt) - 1 && dst.refcnt == old(dst.refcnt) - 1
    {
      OnlyBuffer(dst);
      Overwrite(dst, src.data);
      ReleasePair(src, dst);
    }

    /** With no buffer in anybody's hands, a block can differ from the disk only if it is pinned. */
    lemma OnlyPinnedDiffer()
      requires DataValid() && NoLocks()
      ensures forall n :: 0 <= n < |disk| && latest[n] != disk[n] ==> n in Pinned()
    {
      forall n | 0 <= n < |disk| && latest[n] != disk[n] ensures n in Pinned() {
        assert Cached(n);
        var b :| b in bufs && b.valid && b.blockno == n;
        assert Coherent(b);
      }
    }

    /** log_write's b->flags |= B_DIRTY. */
    method Pin(b: Buf)
      requires DataValid() && b in bufs && b.locked
      modifies b`dirty
      ensures DataValid() && b.dirty && Pinned() == old(Pinned()) + {b.blockno}
    {
      assert Coherent(b);
      b.dirty := true;
      assert b.blockno in Pinned();
    }

    /** Write a changed buffer to disk and release it. */
    method WriteAndRelease(b: Buf)
      requires Valid() && b in bufs && b.locked
      modifies this`disk, this`writes, this`ring, this`clock, head`next, head`prev, bufs`next, bufs`prev
      modifies b`dirty, b`locked, b`refcnt, b`released
      ensures Valid() && disk == old(disk)[b.blockno := b.data]
      ensures writes == old(writes) + [Write(b.blockno, b.data)]
      ensures Pinned() == old(Pinned()) - {b.blockno} && !b.dirty
      ensures !b.locked && b.refcnt == old(b.refcnt) - 1
    {
      assert Coherent(b);
      BWrite(b);
      BRelse(b);
    }

    /** One round of write_log: copy a block from the cache to its log slot. */
    method CopyToLog(slot: nat, home: nat, ghost x: Buf, ghost y: Buf)
      requires Valid() && NoLocks() && slot < |disk| && home < |disk| && slot != home && RoomForPair(home, x, y)
      modifies this`disk, this`latest, this`writes, this`ring, this`clock, head, bufs
      ensures Valid() && NoLocks()
      ensures disk == old(disk)[slot := latest[home]] && latest == old(latest)[slot := latest[home]]
      ensures writes == old(writes) + [Write(slot, latest[home])]
      ensures Pinned() == old(Pinned()) - {slot}
      ensures Recyclable(x) && (old(Recyclable(y)) ==> Recyclable(y))
    {
      var s, h := ReadPair(slot, home, x, y);
      CopyAndRelease(h, s);
    }

    /** One round of install_trans: copy a log slot to the block's home. */
    method CopyHome(slot: nat, home: nat, ghost x: Buf, ghost y: Buf)
      requires Valid() && NoLocks() && slot < |disk| && home < |disk| && slot != home && RoomForPair(home, x, y)
      modifies this`disk, this`latest, this`writes, this`ring, this`clock, head, bufs
      ensures Valid() && NoLocks()
      ensures disk == old(disk)[home := latest[slot]] && latest == old(latest)[home := latest[slot]]
      ensures writes == old(writes) + [Write(home, latest[slot])]
      ensures Pinned() == old(Pinned()) - {home}
      ensures Recyclable(x) && (old(Recyclable(y)) ==> Recyclable(y))
    {
      var s, h := ReadPair(slot, home, x, y);
      CopyAndRelease(s, h);
    }

    ghost function DirtyBufs(): set<Buf>
      reads bufs`dirty
    {
      set b | b in bufs && b.dirty
    }

    lemma PinnedCount()
      requires UniqueInv() && CoherenceInv()
      ensures |Pinned()| == |DirtyBufs()|
    {
      PinnedCountOf(DirtyBufs());
      assert Pinned() == Numbers(DirtyBufs());
    }

    static ghost function Numbers(bs: set<Buf>): set<nat>
      reads bs`blockno
    {
      set b | b in bs :: b.blockno
    }

    lemma {:induction false} PinnedCountOf(bs: set<Buf>)
      requires UniqueInv() && CoherenceInv() && bs <= DirtyBufs()
      ensures |Numbers(bs)| == |bs|
    {
      if bs == {} {
        assert Numbers(bs) == {};
      } else {
        var c :| c in bs;
        var rest := bs - {c};
        PinnedCountOf(rest);
        assert Numbers(bs) == Numbers(rest) + {c.blockno};
        assert c.blockno !in Numbers(rest) by {
          assert c.dirty && Coherent(c);
          OnlyBuffer(c);
          forall b | b in rest ensures b.blockno != c.blockno { assert b.dirty && Coherent(b); }
        }
      }
    }

    /** Some buffer is clean exactly when fewer than NBUF blocks are pinned. */
    lemma CleanBufferLeft()
      requires ListValid() && DataValid()
      ensures |Pinned()| <= NBUF
      ensures (exists b :: b in bufs && !b.dirty) <==> |Pinned()| < NBUF
    {
      PinnedCount();
      DistinctCard(ring);
      forall b | b in bufs ensures b in (set c | c in ring) { assert OnList(b); }
      assert bufs == set c | c in ring;
      assert DirtyBufs() <= bufs;
      Smaller(DirtyBufs(), bufs);
    }

    static lemma Smaller(a: set<Buf>, b: set<Buf>)
      requires a <= b
      ensures |a| <= |b| && (|a| < |b| <==> exists x :: x in b && x !in a)
    {
      assert b == a + (b - a);
    }
  }
}
