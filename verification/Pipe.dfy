/** pipe.c: a ring buffer with 32-bit counters. Each method is a section under the pipe's lock, from acquire, or from
    waking up in sleep, to release, or to the next sleep. */
module Pipes {
  import opened Bytes

  const PIPESIZE: nat := 512
  const WRAP: nat := 0x1_0000_0000

  datatype Written = Done | Broken | Blocked          // n, -1, or asleep on nwrite
  datatype Read = Got(bytes: seq<Byte>) | Killed | Waiting   // a count, -1, or asleep on nread

  class Pipe {
    var data: array<Byte>
    var nread: nat
    var nwrite: nat
    var readopen: bool
    var writeopen: bool
    var rsleep: set<nat>               // processes asleep on nread
    var wsleep: set<nat>               // processes asleep on nwrite
    ghost var stored: seq<Byte>        // every byte ever stored
    ghost var taken: seq<Byte>         // every byte ever read

    /** What is read is what was stored, in order, and the buffer holds the rest. */
    ghost predicate Valid()
      reads this, data
    {
      && data.Length == PIPESIZE && taken <= stored && |stored| - |taken| <= PIPESIZE
      && nread == |taken| % WRAP && nwrite == |stored| % WRAP
      && forall k :: |taken| <= k < |stored| ==> data[k % PIPESIZE] == stored[k]
    }

    ghost predicate Empty()
      reads this
    {
      |taken| == |stored|
    }

    ghost predicate Full()
      reads this
    {
      |stored| - |taken| == PIPESIZE
    }

    /** A sleeping reader means an empty pipe, a sleeping writer a full one, and in both cases both ends are open. */
    ghost predicate SleepersRight()
      reads this
    {
      (rsleep != {} ==> Empty() && writeopen && readopen) && (wsleep != {} ==> Full() && readopen && writeopen)
    }

    lemma NeverBothAsleep()
      requires SleepersRight()
      ensures rsleep == {} || wsleep == {}
    {
    }

    /** How many more bytes fit. */
    ghost function Room(): int
      reads this
    {
      PIPESIZE - (|stored| - |taken|)
    }

    constructor ()
      ensures Valid() && SleepersRight() && fresh(data) && stored == [] && readopen && writeopen
    {
      data := new Byte[PIPESIZE];
      nread, nwrite, readopen, writeopen := 0, 0, true, true;
      rsleep, wsleep, stored, taken := {}, {}, [], [];
    }

    /** The tests on the wrapping counters mean empty and full. */
    lemma Tests()
      requires Valid()
      ensures nread == nwrite <==> Empty()
      ensures nwrite == (nread + PIPESIZE) % WRAP <==> Full()
      ensures nwrite % PIPESIZE == |stored| % PIPESIZE && nread % PIPESIZE == |taken| % PIPESIZE
    {
      ModMod(|stored|);
      ModMod(|taken|);
      CloseMods(|taken|, |stored|);
      CloseMods(|taken| + PIPESIZE, |stored|);
      AddMod(|taken|, PIPESIZE);
    }

    /** pipewrite, from byte i on, by process `me`. The bytes go into the buffer until it is full; then the writer
        fails, if there is no reader or it is killed, or wakes the readers and sleeps. The sleepers stay right except
        in one case: a killed writer that fills an empty pipe leaves its sleeping readers asleep. */
    method Write(src: seq<Byte>, i: nat, killed: bool, me: nat) returns (r: Written, i': nat)
      requires Valid() && i <= |src| && writeopen
      modifies this, data
      ensures Valid() && data == old(data) && taken == old(taken) && readopen == old(readopen)
      ensures writeopen == old(writeopen)
      ensures i <= i' <= |src| && stored == old(stored) + src[i..i']
      ensures i' == (if |src| - i <= old(Room()) then |src| else i + old(Room())) && (r == Done <==> i' == |src|)
      ensures old(Room()) == 512 - (|old(stored)| - |taken|)
      ensures r == Done ==> rsleep == {} && wsleep == old(wsleep)
      ensures r == Broken ==> Full() && (!readopen || killed) && rsleep == old(rsleep) && wsleep == old(wsleep)
      ensures r == Blocked ==> Full() && readopen && !killed && rsleep == {} && wsleep == old(wsleep) + {me}
      ensures old(SleepersRight()) ==> (SleepersRight() <==> !(killed && old(rsleep) != {} && |src| - i > 512))
    {
      i' := i;
      while i' < |src|
        invariant Valid() && data == old(data) && taken == old(taken) && i <= i' <= |src|
        invariant stored == old(stored) + src[i..i'] && rsleep == old(rsleep) && wsleep == old(wsleep)
        invariant readopen == old(readopen) && writeopen == old(writeopen)
      {
        Tests();
        if nwrite == (nread + PIPESIZE) % WRAP {
          if !readopen || killed {
            return Broken, i';
          }
          rsleep, wsleep := {}, wsleep + {me};
          return Blocked, i';
        }
        Store(src[i']);
        assert src[i..i' + 1] == src[i..i'] + [src[i']];
        i' := i' + 1;
      }
      rsleep := {};
      return Done, i';
    }

    method Store(b: Byte)
      requires Valid() && !Full()
      modifies this`nwrite, this`stored, data
      ensures Valid() && stored == old(stored) + [b]
    {
      Tests();
      ghost var n := |stored|;
      NoClash(|taken|, n);
      data[nwrite % PIPESIZE] := b;
      nwrite := (nwrite + 1) % WRAP;
      stored := stored + [b];
      AddMod(n, 1);
    }

    /** piperead of up to n bytes by process `me`: it sleeps on an empty pipe with writers, and otherwise takes what
        there is and wakes the writers. */
    method Take(n: nat, killed: bool, me: nat) returns (r: Read)
      requires Valid() && readopen
      modifies this`nread, this`taken, this`rsleep, this`wsleep
      ensures Valid() && (old(SleepersRight()) ==> SleepersRight())
      ensures r == Waiting <==> old(Empty()) && writeopen && !killed
      ensures r == Killed <==> old(Empty()) && writeopen && killed
      ensures r == Waiting ==> taken == old(taken) && rsleep == old(rsleep) + {me} && wsleep == old(wsleep)
      ensures r == Killed ==> taken == old(taken) && rsleep == old(rsleep) && wsleep == old(wsleep)
      ensures r.Got? ==> taken == old(taken) + r.bytes && rsleep == old(rsleep) && wsleep == {}
      ensures r.Got? ==> |r.bytes| == if n < |stored| - |old(taken)| then n else |stored| - |old(taken)|
    {
      Tests();
      if nread == nwrite && writeopen {
        if killed {
          return Killed;
        }
        rsleep := rsleep + {me};
        return Waiting;
      }
      var i, bytes := 0, [];
      while i < n
        invariant Valid() && i == |bytes| <= n && taken == old(taken) + bytes
        invariant rsleep == old(rsleep) && wsleep == old(wsleep)
      {
        Tests();
        if nread == nwrite {
          break;
        }
        var b := Fetch();
        bytes := bytes + [b];
        i := i + 1;
      }
      Tests();
      wsleep := {};
      return Got(bytes);
    }

    method Fetch() returns (b: Byte)
      requires Valid() && !Empty()
      modifies this`nread, this`taken
      ensures Valid() && taken == old(taken) + [b]
    {
      Tests();
      b := data[nread % PIPESIZE];
      AddMod(|taken|, 1);
      nread := (nread + 1) % WRAP;
      taken := taken + [b];
    }

    /** pipeclose of one end, to which no sleeping process has a reference any more. */
    method Close(writable: bool)
      requires Valid() && (if writable then wsleep == {} else rsleep == {})
      modifies this`readopen, this`writeopen, this`rsleep, this`wsleep
      ensures Valid() && (old(SleepersRight()) ==> SleepersRight())
      ensures writable ==> !writeopen && readopen == old(readopen) && rsleep == {} && wsleep == old(wsleep)
      ensures !writable ==> !readopen && writeopen == old(writeopen) && wsleep == {} && rsleep == old(rsleep)
    {
      if writable {
        writeopen, rsleep := false, {};
      } else {
        readopen, wsleep := false, {};
      }
    }
  }

  /** The one case: a reader sleeps, a killed process writes 513 bytes, and the reader sleeps on beside a full pipe. */
  method LostWakeup(reader: nat, writer: nat) returns (p: Pipe)
    ensures fresh(p) && p.Valid() && reader in p.rsleep && p.Full() && !p.SleepersRight()
  {
    p := new Pipe();
    var r := p.Take(1, false, reader);
    var w, i := p.Write(seq<Byte>(513, j => 0), 0, true, writer);
  }

  // ---------------------------------------------------------------- counters

  lemma ModMod(x: nat)
    ensures x % WRAP % PIPESIZE == x % PIPESIZE
  {
    assert x == WRAP * (x / WRAP) + x % WRAP;
    assert WRAP == PIPESIZE * 0x80_0000;
    assert (PIPESIZE * (0x80_0000 * (x / WRAP)) + x % WRAP) % PIPESIZE == x % WRAP % PIPESIZE by {
      ModPlus(x % WRAP, 0x80_0000 * (x / WRAP));
    }
  }

  lemma {:induction false} ModPlus(y: nat, q: nat)
    ensures (PIPESIZE * q + y) % PIPESIZE == y % PIPESIZE
  {
    if q > 0 { ModPlus(y, q - 1); }
  }

  /** Counts that differ by no more than the buffer are equal when their low 32 bits are. */
  lemma CloseMods(a: nat, b: nat)
    requires a <= b + PIPESIZE && b <= a + PIPESIZE
    ensures a % WRAP == b % WRAP <==> a == b
  {
  }

  lemma AddMod(x: nat, c: nat)
    requires c < WRAP
    ensures (x % WRAP + c) % WRAP == (x + c) % WRAP
  {
  }

  /** The slot for the next byte holds none of the bytes still to be read. */
  lemma NoClash(lo: nat, hi: nat)
    requires lo <= hi < lo + PIPESIZE
    ensures forall k :: lo <= k < hi ==> k % PIPESIZE != hi % PIPESIZE
  {
  }
}
