/** What the page tables of vm.c mean to the hardware: the translation of a 32-bit address, in the machine's own
    numbers, and what the kernel and a user process can reach through it. */
module Mmu {
  import opened Bytes
  import opened PageTable
  import opened VirtualMemory

  /** A fault, or the physical address with the rights that directory and table both give. */
  datatype Translation = Fault | To(pa: nat, write: bool, user: bool)

  /** The walk of the hardware: ten bits of the address for the directory, ten for the table, twelve within the page. */
  function Translate(mem: Memory, pd: nat, va: nat): Translation
    requires pd < |mem| && va < 0x1_0000_0000
  {
    var d := mem[pd][va / 0x40_0000];
    if d % 2 == 0 || d / 0x1000 >= |mem| then Fault
    else
      var e := mem[d / 0x1000][va / 0x1000 % 0x400];
      if e % 2 == 0 then Fault
      else To(e / 0x1000 * 0x1000 + va % 0x1000, d / 2 % 2 == 1 && e / 2 % 2 == 1, d / 4 % 2 == 1 && e / 4 % 2 == 1)
  }

  lemma LowFlags(w: nat)
    ensures w % 4096 / 2 % 2 == w / 2 % 2 && w % 4096 / 4 % 2 == w / 4 % 2
  {
    BitOne(w / 4096, w % 4096);
    BitTwo(w / 4096, w % 4096);
  }

  lemma BitOne(q: nat, p: nat)
    ensures (4096 * q + p) / 2 % 2 == p / 2 % 2
  {
    Quotient(2, 2048 * q, p);
    EvenPart(1024 * q, p / 2);
  }

  lemma BitTwo(q: nat, p: nat)
    ensures (4096 * q + p) / 4 % 2 == p / 4 % 2
  {
    Quotient(4, 1024 * q, p);
    EvenPart(512 * q, p / 4);
  }

  lemma Quotient(d: nat, a: nat, p: nat)
    requires d == 2 || d == 4
    ensures (d * a + p) / d == a + p / d
  {
  }

  lemma EvenPart(a: nat, b: nat)
    ensures (2 * a + b) % 2 == b % 2
  {
  }

  lemma Indices(va: nat, x: nat)
    requires va < 0x1_0000_0000 && x == va / 0x1000
    ensures x < NPAGES && va / 0x40_0000 == Pdx(x) && va / 0x1000 % 0x400 == Ptx(x)
  {
  }

  /** The walk reads the entry of the page, and the entry's own rights are those that count. */
  lemma WalkReadsPte(mem: Memory, role: Roles, pd: nat, va: nat, x: nat)
    requires Sane(mem, role) && pd < |role| && role[pd] == Dir && va < 0x1_0000_0000 && x == va / 0x1000
    ensures x < NPAGES
    ensures Translate(mem, pd, va) ==
      var e := Pte(mem, pd, x);
      if e % 2 == 0 then Fault else To(e / 0x1000 * 0x1000 + va % 0x1000, e / 2 % 2 == 1, e / 4 % 2 == 1)
  {
    Indices(va, x);
    var d := mem[pd][Pdx(x)];
    assert DirOk(mem, role, pd, Pdx(x));
    LowFlags(d);
  }

  // ---------------------------------------------------------------- the kernel

  /** The entries that kmap makes: physical memory at KERNBASE with the text read-only, the devices at their own
      addresses, and nothing else. */
  lemma KernelEntries(data: nat, x: nat)
    requires DataAddress(data) && x < NPAGES
    ensures 0x8_0000 <= x < 0x8_E000 ==>
      KernelPte(data, 4, x) == 0x1000 * (x - 0x8_0000) + if 0x8_0100 <= x < data / 0x1000 then 1 else 3
    ensures 0xF_E000 <= x ==> KernelPte(data, 4, x) == 0x1000 * x + 3
    ensures !(0x8_0000 <= x < 0x8_E000 || 0xF_E000 <= x) ==> KernelPte(data, 4, x) == 0
  {
    var q := data / 0x1000;
    assert data == q * 0x1000 && 0x8_0100 < q < 0x8_E000;
    KernelLines(data, q, x);
  }

  /** The lines of kmap in pages. */
  lemma KernelLines(data: nat, q: nat, x: nat)
    requires DataAddress(data) && x < NPAGES && data == q * 0x1000 && 0x8_0100 < q < 0x8_E000
    ensures KernelPte(data, 4, x) ==
      if 0xF_E000 <= x then Entry(x, 2)
      else if q <= x < 0x8_E000 then Entry(x - 0x8_0000, 2)
      else if 0x8_0100 <= x < q then Entry(x - 0x8_0000, 0)
      else if 0x8_0000 <= x < 0x8_0100 then Entry(x - 0x8_0000, 2) else 0
  {
    assert Kmap(data, 3).Covers(x) <==> 0xF_E000 <= x;
    assert Kmap(data, 2).Covers(x) <==> q <= x < 0x8_E000;
    assert Kmap(data, 1).Covers(x) <==> 0x8_0100 <= x < q;
    assert Kmap(data, 0).Covers(x) <==> 0x8_0000 <= x < 0x8_0100;
    assert KernelPte(data, 0, x) == 0;
    assert KernelPte(data, 1, x) == if Kmap(data, 0).Covers(x) then Entry(x - 0x8_0000, 2) else 0;
    assert KernelPte(data, 2, x) == if Kmap(data, 1).Covers(x) then Entry(x - 0x8_0000, 0) else KernelPte(data, 1, x);
    assert KernelPte(data, 3, x) == if Kmap(data, 2).Covers(x) then Entry(x - 0x8_0000, 2) else KernelPte(data, 2, x);
    assert KernelPte(data, 4, x) == if Kmap(data, 3).Covers(x) then Entry(x, 2) else KernelPte(data, 3, x);
  }

  /** V2P and P2V are what the hardware does: a kernel address of physical memory is KERNBASE above it, devices are at
      their own addresses, and anything else in kernel space faults. The kernel can write all of it but its text, and
      the user nothing. */
  lemma KernelReaches(mem: Memory, role: Roles, pd: nat, data: nat, va: nat)
    requires Sane(mem, role) && pd < |role| && role[pd] == Dir && DataAddress(data) && KernelPart(mem, pd, data)
    requires 0x8000_0000 <= va < 0x1_0000_0000
    ensures Translate(mem, pd, va) ==
      if va < 0x8E00_0000 then To(va - 0x8000_0000, !(0x8010_0000 <= va < data), false)
      else if va >= 0xFE00_0000 then To(va, true, false)
      else Fault
  {
    var x := va / 0x1000;
    WalkReadsPte(mem, role, pd, va, x);
    KernelEntries(data, x);
    InText(data, va, x);
    if 0x8_0000 <= x < 0x8_E000 {
      EntryParts(x - 0x8_0000, if 0x8_0100 <= x < data / 0x1000 then 1 else 3);
    } else if 0xF_E000 <= x {
      EntryParts(x, 3);
    }
  }

  lemma EntryParts(f: nat, p: nat)
    requires p == 1 || p == 3
    ensures (0x1000 * f + p) / 0x1000 == f && (0x1000 * f + p) % 2 == 1
    ensures ((0x1000 * f + p) / 2 % 2 == 1 <==> p == 3) && (0x1000 * f + p) / 4 % 2 == 0
  {
    BitOne(f, p);
    BitTwo(f, p);
    assert (4096 * f + p) % 2 == p % 2 by { EvenPart(2048 * f, p); }
  }

  lemma InText(data: nat, va: nat, x: nat)
    requires DataAddress(data) && x == va / 0x1000
    ensures 0x8_0100 <= x < data / 0x1000 <==> 0x8010_0000 <= va < data
  {
    var q := data / 0x1000;
    assert data == q * 0x1000;
  }

  // ---------------------------------------------------------------- the user

  /** What user code can reach is its own: the frame belongs to this page of this address space. */
  lemma UserReaches(mem: Memory, role: Roles, pd: nat, data: nat, va: nat)
    requires Sane(mem, role) && pd < |role| && role[pd] == Dir && DataAddress(data) && KernelPart(mem, pd, data)
    requires va < 0x1_0000_0000 && Translate(mem, pd, va).To? && Translate(mem, pd, va).user
    ensures va < 0x8000_0000
    ensures var f := Translate(mem, pd, va).pa / 0x1000; f < |role| && role[f] == User(pd, va / 0x1000)
  {
    var x := va / 0x1000;
    if va >= 0x8000_0000 {
      KernelReaches(mem, role, pd, data, va);
    } else {
      WalkReadsPte(mem, role, pd, va, x);
      assert UserOk(mem, role, pd, x);
    }
  }

  /** Memory that allocuvm has added can be read and written by user code, and is zero at first. */
  lemma NewMemory(mem: Memory, role: Roles, pd: nat, va: nat, x: nat)
    requires Sane(mem, role) && pd < |role| && role[pd] == Dir && va < 0x8000_0000 && x == va / 0x1000
    requires Present(Pte(mem, pd, x)) && FlagsOf(Pte(mem, pd, x)) == 1 + PTE_W + PTE_U
    requires FrameOf(Pte(mem, pd, x)) < |mem| && mem[FrameOf(Pte(mem, pd, x))] == ZeroPage()
    ensures Translate(mem, pd, va) == To(FrameOf(Pte(mem, pd, x)) * 0x1000 + va % 0x1000, true, true)
    ensures mem[Translate(mem, pd, va).pa / 0x1000][va % 0x1000 / 4] == 0
  {
    WalkReadsPte(mem, role, pd, va, x);
    LowFlags(Pte(mem, pd, x));
  }

  /** No frame can be reached by user code from two address spaces, or from two pages of one. */
  lemma NothingShared(mem: Memory, role: Roles, pd: nat, va: nat, pd': nat, va': nat, data: nat)
    requires Sane(mem, role) && pd < |role| && role[pd] == Dir && pd' < |role| && role[pd'] == Dir
    requires DataAddress(data) && KernelPart(mem, pd, data) && KernelPart(mem, pd', data)
    requires va < 0x1_0000_0000 && Translate(mem, pd, va).To? && Translate(mem, pd, va).user
    requires va' < 0x1_0000_0000 && Translate(mem, pd', va').To? && Translate(mem, pd', va').user
    requires Translate(mem, pd, va).pa / 0x1000 == Translate(mem, pd', va').pa / 0x1000
    ensures pd == pd' && va / 0x1000 == va' / 0x1000
  {
    UserReaches(mem, role, pd, data, va);
    UserReaches(mem, role, pd', data, va');
  }

  /** A size is that of the mapped memory if and only if exactly the addresses of the pages that it reaches into are
      mapped. */
  lemma MappedBytes(mem: Memory, role: Roles, pd: nat, sz: nat)
    requires Sane(mem, role) && pd < |role| && role[pd] == Dir
    ensures (forall x :: 0 <= x < USERPAGES ==> (Present(Pte(mem, pd, x)) <==> x < PageUp(sz)))
       <==> forall va :: 0 <= va < 0x8000_0000 ==> (Translate(mem, pd, va).To? <==> va / 0x1000 * 0x1000 < sz)
  {
    forall va | 0 <= va < 0x8000_0000
      ensures Translate(mem, pd, va).To? <==> Present(Pte(mem, pd, va / 0x1000))
      ensures va / 0x1000 * 0x1000 < sz <==> va / 0x1000 < PageUp(sz)
    {
      WalkReadsPte(mem, role, pd, va, va / 0x1000);
      PageBelow(va / 0x1000, sz);
    }
    if forall va :: 0 <= va < 0x8000_0000 ==> (Translate(mem, pd, va).To? <==> va / 0x1000 * 0x1000 < sz) {
      forall x | 0 <= x < USERPAGES ensures Present(Pte(mem, pd, x)) <==> x < PageUp(sz) {
        var va := x * 0x1000;
        assert va / 0x1000 == x && Translate(mem, pd, va).To? == (va / 0x1000 * 0x1000 < sz);
      }
    }
  }

  lemma PageBelow(x: nat, sz: nat)
    ensures x * 0x1000 < sz <==> x < PageUp(sz)
  {
  }
}
