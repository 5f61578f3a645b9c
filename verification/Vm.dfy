/** kalloc.c and vm.c: the pool of page frames, and address spaces built from it. */
module VirtualMemory {
  import opened Bytes
  import opened PageTable
  import opened Frames

  const PGSIZE: nat := 4096
  const KERNBASE: nat := 0x8000_0000
  const EXTMEM: nat := 0x10_0000
  const PHYSTOP: nat := 0xE00_0000
  const DEVSPACE: nat := 0xFE00_0000

  // ---------------------------------------------------------------- the pool

  /** The free list names each free frame once, and nothing else. */
  ghost predicate PoolOk(pool: seq<nat>, role: Roles) {
    && (forall i, j :: 0 <= i < j < |pool| ==> pool[i] != pool[j])
    && (forall i :: 0 <= i < |pool| ==> pool[i] < |role| && role[pool[i]] == Free)
    && forall f :: 0 <= f < |role| && role[f] == Free ==> f in pool
  }

  lemma Pop(pool: seq<nat>, role: Roles)
    requires PoolOk(pool, role) && pool != []
    ensures PoolOk(pool[1..], role[pool[0] := Held])
  {
    forall f | 0 <= f < |role| && role[pool[0] := Held][f] == Free ensures f in pool[1..] {
      assert f in pool;
    }
  }

  lemma Push(pool: seq<nat>, role: Roles, f: nat)
    requires PoolOk(pool, role) && f < |role| && role[f] != Free
    ensures PoolOk([f] + pool, role[f := Free])
  {
    forall g | 0 <= g < |role| && role[f := Free][g] == Free ensures g in [f] + pool {
      assert g == f || g in pool;
    }
  }

  /** Roles other than Free do not concern the pool. */
  lemma Repurpose(pool: seq<nat>, role: Roles, f: nat, r: Role)
    requires PoolOk(pool, role) && f < |role| && role[f] != Free && r != Free
    ensures PoolOk(pool, role[f := r])
  {
    forall g | 0 <= g < |role| && role[f := r][g] == Free ensures g in pool {
      assert role[g] == Free;
    }
  }

  // ---------------------------------------------------------------- deallocation, page by page

  datatype Phys = Phys(mem: Memory, pool: seq<nat>)

  /** One page: a mapped one is freed and its entry cleared. */
  function Drop(s: Phys, pd: nat, v: nat): Phys
    requires pd < |s.mem| && v < NPAGES
  {
    var e := Pte(s.mem, pd, v);
    if Present(e) && FrameOf(e) < |s.mem| && TableOf(s.mem, pd, v) < |s.mem| then
      Phys(SetWord(s.mem[FrameOf(e) := JunkPage()], TableOf(s.mem, pd, v), Ptx(v), 0), [FrameOf(e)] + s.pool)
    else s
  }

  /** The plain loop over the pages v .. hi. */
  function DropAll(s: Phys, pd: nat, v: nat, hi: nat): (r: Phys)
    requires pd < |s.mem| && hi <= NPAGES
    ensures |r.mem| == |s.mem|
    decreases hi - v
  {
    if v >= hi then s else DropAll(Drop(s, pd, v), pd, v + 1, hi)
  }

  /** Where there is no table, the plain loop does nothing up to the end of that table's pages. */
  lemma {:induction false} JumpIsIdle(s: Phys, pd: nat, v: nat, hi: nat)
    requires pd < |s.mem| && hi <= NPAGES && v < hi && !Present(s.mem[pd][Pdx(v)])
    ensures DropAll(s, pd, v, hi) == DropAll(s, pd, (Pdx(v) + 1) * NPDENTRIES, hi)
    decreases hi - v
  {
    if v + 1 < hi && v + 1 < (Pdx(v) + 1) * NPDENTRIES {
      assert Pdx(v + 1) == Pdx(v);
      JumpIsIdle(s, pd, v + 1, hi);
    }
  }

  function PageUp(sz: nat): nat { (sz + PGSIZE - 1) / PGSIZE }

  // ---------------------------------------------------------------- the kernel's part of an address space

  /** A line of kmap. */
  datatype Region = Region(virt: nat, phys: nat, size: nat, perm: nat) {
    predicate Covers(x: nat) { virt / PGSIZE <= x < (virt + size) / PGSIZE }
  }

  /** kmap, for a kernel whose data segment starts at this address. */
  function Kmap(data: nat, k: nat): Region
    requires DataAddress(data) && k < 4
  {
    if k == 0 then Region(KERNBASE, 0, EXTMEM, PTE_W)
    else if k == 1 then Region(KERNBASE + EXTMEM, EXTMEM, data - KERNBASE - EXTMEM, 0)
    else if k == 2 then Region(data, data - KERNBASE, PHYSTOP - (data - KERNBASE), PTE_W)
    else Region(DEVSPACE, DEVSPACE, 0x1_0000_0000 - DEVSPACE, PTE_W)
  }

  predicate DataAddress(data: nat) {
    data % PGSIZE == 0 && KERNBASE + EXTMEM < data < KERNBASE + PHYSTOP
  }

  /** The entry of page x after the first k lines of kmap. */
  function KernelPte(data: nat, k: nat, x: nat): Word
    requires DataAddress(data) && k <= 4 && x < NPAGES
  {
    if k == 0 then 0
    else
      var r := Kmap(data, k - 1);
      if r.Covers(x) then Entry(r.phys / PGSIZE + (x - r.virt / PGSIZE), r.perm) else KernelPte(data, k - 1, x)
  }

  /** The lines of kmap do not overlap and lie in kernel space. */
  lemma {:induction false} KmapApart(data: nat, k: nat, x: nat)
    requires DataAddress(data) && k < 4 && x < NPAGES && Kmap(data, k).Covers(x)
    ensures KernelPte(data, k, x) == 0 && x >= USERPAGES
  {
    assert k >= 1 ==> !Kmap(data, 0).Covers(x);
    assert k >= 2 ==> !Kmap(data, 1).Covers(x);
    assert k >= 3 ==> !Kmap(data, 2).Covers(x);
    assert KernelPte(data, 0, x) == 0;
    assert k >= 1 ==> KernelPte(data, 1, x) == 0;
    assert k >= 2 ==> KernelPte(data, 2, x) == 0;
  }

  /** The pages of line k. */
  lemma RegionPages(data: nat, k: nat)
    requires DataAddress(data) && k < 4
    ensures var r := Kmap(data, k);
      && r.size >= 1 && r.virt + r.size <= 0x1_0000_0000 && r.perm < 4096 && r.virt / PGSIZE >= USERPAGES
      && r.virt / PGSIZE + Spanned(r.virt, r.size) == (r.virt + r.size) / PGSIZE <= NPAGES
      && r.phys % PGSIZE == 0 && r.phys / PGSIZE + Spanned(r.virt, r.size) <= NPAGES
  {
    var q := data / PGSIZE;
    assert data == q * PGSIZE && 0x8_0100 < q < 0x8_E000;
  }

  lemma {:induction false} KernelOnly(data: nat, k: nat, x: nat)
    requires DataAddress(data) && k <= 4 && x < USERPAGES
    ensures KernelPte(data, k, x) == 0
  {
    if k > 0 { KernelOnly(data, k - 1, x); }
  }

  /** After k lines of kmap the directory has tables from entry 512 up to here, and after the last line the last
      eight. */
  function KernTop(data: nat, k: nat): nat
    requires DataAddress(data) && k <= 4
  {
    if k == 0 then 512 else if k == 1 then 513 else if k == 2 then Pdx1(data / PGSIZE - 1) else 568
  }

  /** The tables made by then. */
  function KernTables(data: nat, k: nat): nat
    requires DataAddress(data) && k <= 4
  {
    KernTop(data, k) - 512 + if k == 4 then 8 else 0
  }

  ghost predicate KernDir(dir: Page, data: nat, k: nat)
    requires DataAddress(data) && k <= 4
  {
    forall i {:trigger dir[i]} :: 0 <= i < NPDENTRIES ==>
      (Present(dir[i]) <==> 512 <= i < KernTop(data, k) || (k == 4 && i >= 1016))
  }

  const KVMFRAMES: nat := 65           // a directory and 64 tables

  /** The directory entries of line k. */
  lemma RegionEntries(data: nat, k: nat, i: nat, j: nat)
    requires DataAddress(data) && k < 4
    requires var r := Kmap(data, k); i == Pdx(r.virt / PGSIZE) && j == Pdx1((r.virt + r.size - 1) / PGSIZE)
    ensures k < 3 ==> 512 <= i <= KernTop(data, k) <= j == KernTop(data, k + 1)
    ensures k == 3 ==> i == 1016 && j == 1024 && KernTop(data, 4) == 568
  {
    var q := data / PGSIZE;
    assert data == q * PGSIZE && 0x8_0100 < q < 0x8_E000;
  }

  lemma RegionGaps(dir: Page, data: nat, k: nat, i: nat, j: nat)
    requires DataAddress(data) && k < 4 && KernDir(dir, data, k)
    requires var r := Kmap(data, k); i == Pdx(r.virt / PGSIZE) && j == Pdx1((r.virt + r.size - 1) / PGSIZE)
    ensures j <= NPDENTRIES && KernTables(data, k) + Gaps(dir, i, j) == KernTables(data, k + 1)
  {
    RegionEntries(data, k, i, j);
    GapsFrom(dir, i, j, if k < 3 then KernTop(data, k) else 1016);
  }

  lemma RegionOpened(dir: Page, dir': Page, data: nat, k: nat, i: nat, j: nat)
    requires DataAddress(data) && k < 4 && KernDir(dir, data, k) && Opened(dir, dir', i, j)
    requires var r := Kmap(data, k); i == Pdx(r.virt / PGSIZE) && j == Pdx1((r.virt + r.size - 1) / PGSIZE)
    ensures KernDir(dir', data, k + 1)
  {
    RegionEntries(data, k, i, j);
  }

  /** Whatever the address of the data, kmap needs 64 tables. */
  lemma KernTablesGrow(data: nat, k: nat)
    requires DataAddress(data) && k <= 4
    ensures KernTables(data, k) + 1 <= KVMFRAMES && KernTables(data, 4) + 1 == KVMFRAMES
  {
    var q := data / PGSIZE;
    assert data == q * PGSIZE && 0x8_0100 < q < 0x8_E000;
  }

  // ---------------------------------------------------------------- frames an operation may touch

  /** Frame f, with role r, is part of address space pd. */
  predicate Belongs(r: Role, f: nat, pd: nat) {
    f == pd || (r.Table? && r.pd == pd) || (r.User? && r.pd == pd)
  }

  /** Address space pd has grown: frames in use keep their use, and their contents unless they are pd's directory or
      tables; free frames have stayed free or joined pd. */
  ghost predicate Grown(mem: Memory, role: Roles, mem': Memory, role': Roles, pd: nat) {
    && |mem| == |role| == |mem'| == |role'|
    && (forall f :: 0 <= f < |role| && role[f] != Free ==> role'[f] == role[f])
    && (forall f :: 0 <= f < |role| && role[f] != Free && f != pd && !(role[f].Table? && role[f].pd == pd) ==>
          mem'[f] == mem[f])
    && forall f :: 0 <= f < |role| && role[f] == Free ==> role'[f] == Free || Belongs(role'[f], f, pd)
  }

  /** The frames that are new to address space pd, when frame f is about to join it. */
  ghost function Offered(role: Roles, f: nat, user: bool): Roles {
    if user && f < |role| then role[f := Free] else role
  }

  /** The pages lo .. hi of address space pd have been unmapped and their frames freed, and nothing else in use has
      changed but entries in pd's tables. */
  ghost predicate Shrunk(mem: Memory, role: Roles, mem': Memory, role': Roles, pd: nat, lo: nat, hi: nat) {
    && |mem| == |role| == |mem'| == |role'| && pd < |mem|
    && (forall f :: 0 <= f < |role| ==>
          role'[f] == if role[f].User? && role[f].pd == pd && lo <= role[f].v < hi then Free else role[f])
    && (forall f :: 0 <= f < |role| && role'[f] != Free && !(role[f].Table? && role[f].pd == pd) ==> mem'[f] == mem[f])
    && forall x :: 0 <= x < NPAGES ==>
         Pte(mem', pd, x) == if lo <= x < hi && Present(Pte(mem, pd, x)) then 0 else Pte(mem, pd, x)
  }

  function Min(a: nat, b: nat): nat { if a < b then a else b }

  lemma ShrunkMore(m0: Memory, r0: Roles, m1: Memory, r1: Roles, m2: Memory, r2: Roles, pd: nat, lo: nat, a: nat,
                   b: nat)
    requires Shrunk(m0, r0, m1, r1, pd, lo, a) && Shrunk(m1, r1, m2, r2, pd, a, b) && lo <= a <= b
    ensures Shrunk(m0, r0, m2, r2, pd, lo, b)
  {
  }

  /** No other frame is page v. */
  lemma OneUserFrame(mem: Memory, role: Roles, pd: nat, v: nat, u: nat)
    requires Sane(mem, role) && pd < |mem| && v < USERPAGES && u == FrameOf(Pte(mem, pd, v))
    ensures forall f :: 0 <= f < |role| && role[f].User? && role[f].pd == pd && role[f].v == v ==> f == u
  {
    forall f | 0 <= f < |role| && role[f].User? && role[f].pd == pd && role[f].v == v ensures f == u {
      assert OwnerOk(mem, role, f);
    }
  }

  /** Pages that are not mapped need no unmapping. */
  lemma ShrunkSkip(mem: Memory, role: Roles, pd: nat, a: nat, b: nat)
    requires Sane(mem, role) && pd < |mem| && a <= b <= USERPAGES
    requires forall x :: a <= x < b ==> !Present(Pte(mem, pd, x))
    ensures Shrunk(mem, role, mem, role, pd, a, b)
  {
    forall f | 0 <= f < |role| ensures !(role[f].User? && role[f].pd == pd && a <= role[f].v < b) {
      assert OwnerOk(mem, role, f);
    }
  }

  /** Address space pd is gone: all its frames are free, and other frames in use have not changed. */
  ghost predicate Gone(mem: Memory, role: Roles, mem': Memory, role': Roles, pd: nat) {
    && |mem| == |role| == |mem'| == |role'|
    && (forall f :: 0 <= f < |role| ==> role'[f] == if Belongs(role[f], f, pd) then Free else role[f])
    && forall f :: 0 <= f < |role| && role'[f] != Free ==> mem'[f] == mem[f]
  }

  /** Halfway: the user pages are gone, directory pd is out of use, and of its tables those before entry i are free. */
  ghost predicate Going(mem: Memory, role: Roles, mem': Memory, role': Roles, pd: nat, i: nat) {
    && |mem| == |role| == |mem'| == |role'| && pd < |role| && role'[pd] == Doomed && mem'[pd] == mem[pd]
    && (forall f :: 0 <= f < |role| && f != pd ==>
          role'[f] == if Belongs(role[f], f, pd) && !(role[f].Table? && role[f].i >= i) then Free else role[f])
    && (forall f :: 0 <= f < |role| && role'[f] != Free && !(role[f].Table? && role[f].pd == pd) ==> mem'[f] == mem[f])
  }

  /** Page v of address space d is a copy of page v of pd as it was in memory m: the same flags and the same bytes, in a
      frame of d's own. */
  ghost predicate CopiedPage(mem: Memory, role: Roles, d: nat, m: Memory, pd: nat, v: nat)
    requires |mem| == |role| == |m| && d < |mem| && pd < |m| && v < USERPAGES
  {
    var e, was := Pte(mem, d, v), Pte(m, pd, v);
    && Present(e) && FlagsOf(e) == FlagsOf(was)
    && FrameOf(e) < |mem| && FrameOf(was) < |m| && mem[FrameOf(e)] == m[FrameOf(was)] && role[FrameOf(e)] == User(d, v)
  }

  /** The kernel's part of address space d is that of kmap, or as it was in memory m. */
  ghost predicate KernelPart(mem: Memory, d: nat, data: nat)
    requires DataAddress(data)
  {
    d < |mem| && forall x :: USERPAGES <= x < NPAGES ==> Pte(mem, d, x) == KernelPte(data, 4, x)
  }

  ghost predicate SameKernel(mem: Memory, m: Memory, d: nat) {
    d < |mem| == |m| && forall x :: USERPAGES <= x < NPAGES ==> Pte(mem, d, x) == Pte(m, d, x)
  }

  /** The first n user pages of pd are where they were, with the same bytes; the kernel's part of it is as it was, and
      so is every frame in use that is not pd's. */
  ghost predicate Undisturbed(m: Memory, ro: Roles, mem: Memory, role: Roles, pd: nat, n: nat) {
    && |m| == |ro| == |mem| == |role| && SameKernel(mem, m, pd)
    && (forall x {:trigger Pte(mem, pd, x)} :: 0 <= x < n && x < USERPAGES && Present(Pte(m, pd, x)) ==>
          Pte(mem, pd, x) == Pte(m, pd, x)
          && (FrameOf(Pte(m, pd, x)) < |m| ==> mem[FrameOf(Pte(m, pd, x))] == m[FrameOf(Pte(m, pd, x))]))
    && forall f :: 0 <= f < |ro| && ro[f] != Free && !Belongs(ro[f], f, pd) ==> role[f] == ro[f] && mem[f] == m[f]
  }

  lemma GrownUndisturbed(m: Memory, ro: Roles, mem: Memory, role: Roles, pd: nat, n: nat)
    requires Sane(m, ro) && pd < |ro| && ro[pd] == Dir && Grown(m, ro, mem, role, pd) && n <= USERPAGES
    requires SameKernel(mem, m, pd)
    requires forall x :: 0 <= x < n && Present(Pte(m, pd, x)) ==> Pte(mem, pd, x) == Pte(m, pd, x)
    ensures Undisturbed(m, ro, mem, role, pd, n)
  {
    forall x | 0 <= x < n && Present(Pte(m, pd, x))
      ensures FrameOf(Pte(m, pd, x)) < |m| ==> mem[FrameOf(Pte(m, pd, x))] == m[FrameOf(Pte(m, pd, x))]
    {
      assert UserOk(m, ro, pd, x);
    }
  }

  lemma ShrunkUndisturbed(m: Memory, ro: Roles, mem: Memory, role: Roles, pd: nat, n: nat, hi: nat)
    requires Sane(m, ro) && pd < |ro| && ro[pd] == Dir && Shrunk(m, ro, mem, role, pd, n, hi) && hi <= USERPAGES
    ensures Undisturbed(m, ro, mem, role, pd, n)
  {
    forall x | 0 <= x < n && x < USERPAGES && Present(Pte(m, pd, x))
      ensures FrameOf(Pte(m, pd, x)) < |m| ==> mem[FrameOf(Pte(m, pd, x))] == m[FrameOf(Pte(m, pd, x))]
    {
      assert UserOk(m, ro, pd, x);
    }
  }

  /** The first n user pages of d are copies and d has no others. */
  ghost predicate CopiedTo(mem: Memory, role: Roles, d: nat, m: Memory, pd: nat, n: nat)
    requires |mem| == |role| == |m| && d < |mem| && pd < |m|
  {
    && (forall v {:trigger CopiedPage(mem, role, d, m, pd, v)} :: 0 <= v < n && v < USERPAGES ==>
          CopiedPage(mem, role, d, m, pd, v))
    && forall v :: n <= v < USERPAGES ==> Pte(mem, d, v) == 0
  }

  /** Skipping the pages of a missing table. */
  lemma SkipTable(mem: Memory, pool: seq<nat>, role: Roles, pd: nat, a: nat, hi: nat)
    requires Sane(mem, role) && pd < |mem| && a < hi <= USERPAGES && !Present(mem[pd][Pdx(a)])
    ensures var next := (Pdx(a) + 1) * NPDENTRIES;
      && a < next && DropAll(Phys(mem, pool), pd, next, hi) == DropAll(Phys(mem, pool), pd, a, hi)
      && Shrunk(mem, role, mem, role, pd, a, Min(next, hi))
  {
    var next := (Pdx(a) + 1) * NPDENTRIES;
    JumpIsIdle(Phys(mem, pool), pd, a, hi);
    forall x | a <= x < Min(next, hi) ensures Pdx(x) == Pdx(a) { }
    ShrunkSkip(mem, role, pd, a, Min(next, hi));
  }

  lemma ShrunkRelease(m1: Memory, r1: Roles, m2: Memory, r2: Roles, m3: Memory, pd: nat, lo: nat, hi: nat, f: nat)
    requires Shrunk(m1, r1, m2, r2, pd, lo, hi) && f < |r1| && r1[f] == Held && m3 == m2[f := JunkPage()]
    requires forall x :: 0 <= x < NPAGES ==> Pte(m3, pd, x) == Pte(m2, pd, x)
    ensures Shrunk(m1, r1[f := Free], m3, r2[f := Free], pd, lo, hi)
  {
  }

  /** Growing and then unmapping pages that were not mapped before is growing. */
  lemma GrownShrunk(m0: Memory, r0: Roles, m1: Memory, r1: Roles, m2: Memory, r2: Roles, pd: nat, lo: nat, hi: nat)
    requires Sane(m0, r0) && pd < |r0| && Grown(m0, r0, m1, r1, pd) && Shrunk(m1, r1, m2, r2, pd, lo, hi)
    requires hi <= NPAGES && forall x :: lo <= x < hi ==> !Present(Pte(m0, pd, x))
    ensures Grown(m0, r0, m2, r2, pd)
  {
    forall f | 0 <= f < |r0| && r0[f] != Free ensures r2[f] == r0[f] {
      assert OwnerOk(m0, r0, f);
    }
  }

  /** Growing is transitive. */
  lemma GrownTwice(m0: Memory, r0: Roles, m1: Memory, r1: Roles, m2: Memory, r2: Roles, pd: nat)
    requires Grown(m0, r0, m1, r1, pd) && Grown(m1, r1, m2, r2, pd)
    ensures Grown(m0, r0, m2, r2, pd)
  {
  }

  /** When pd grows, no other address space is mapped differently. */
  lemma GrownElsewhere(mem: Memory, role: Roles, mem': Memory, role': Roles, pd: nat, q: nat, x: nat)
    requires Sane(mem, role) && Grown(mem, role, mem', role', pd)
    requires q < |role| && role[q] == Dir && q != pd && x < NPAGES && pd < |role|
    requires role[pd] == Dir || role[pd] == Free
    ensures Pte(mem', q, x) == Pte(mem, q, x)
  {
    assert DirOk(mem, role, q, Pdx(x));
    assert mem'[q] == mem[q];
    var e := mem[q][Pdx(x)];
    if Present(e) { assert mem'[FrameOf(e)] == mem[FrameOf(e)]; }
  }

  /** From memory m to m', pages v .. a of pd have been mapped to frames from `frame` on, and no others. */
  ghost predicate MappedRun(m: Memory, m': Memory, pd: nat, v: nat, a: nat, frame: nat, perm: nat)
    requires pd < |m| && pd < |m'| && v <= a <= NPAGES && frame + (a - v) <= NPAGES && perm < 4096
  {
    forall x {:trigger Pte(m', pd, x)} :: 0 <= x < NPAGES ==>
      Pte(m', pd, x) == if v <= x < a then Entry(frame + (x - v), perm) else Pte(m, pd, x)
  }

  lemma RunNext(m: Memory, m1: Memory, m2: Memory, pd: nat, v: nat, a: nat, a': nat, frame: nat, f: nat, perm: nat)
    requires pd < |m| && pd < |m1| && pd < |m2| && v <= a < a' == a + 1 <= NPAGES && frame + (a' - v) <= NPAGES
    requires perm < 4096 && f == frame + (a - v) && MappedRun(m, m1, pd, v, a, frame, perm)
    requires forall x {:trigger Pte(m2, pd, x)} :: 0 <= x < NPAGES ==>
      Pte(m2, pd, x) == if x == a then Entry(f, perm) else Pte(m1, pd, x)
    ensures MappedRun(m, m2, pd, v, a', frame, perm)
  {
  }

  lemma SpannedPages(va: nat, size: nat)
    requires size >= 1 && va + size <= 0x1_0000_0000
    ensures var v, last := va / PGSIZE, (va + size - 1) / PGSIZE;
      v <= last < NPAGES && v + Spanned(va, size) == last + 1 && Pdx1(last) == DirTop(v, last + 1)
  {
  }

  lemma OnePage(v: nat, f: nat)
    ensures Spanned(v * PGSIZE, PGSIZE) == 1 && v * PGSIZE / PGSIZE == v && f * PGSIZE / PGSIZE == f
    ensures (v * PGSIZE + PGSIZE - 1) / PGSIZE == v && f * PGSIZE % PGSIZE == 0
  {
  }

  /** The numbers hi - 1 down to lo. */
  function Falling(lo: nat, hi: nat): (s: seq<nat>)
    ensures |s| == if hi <= lo then 0 else hi - lo
  {
    if hi <= lo then [] else [hi - 1] + Falling(lo, hi - 1)
  }

  lemma FallingNext(lo: nat, p: nat, p': nat, pool: seq<nat>)
    requires lo <= p < p' == p + 1
    ensures [p] + (Falling(lo, p) + pool) == Falling(lo, p') + pool
  {
  }

  class Vm {
    const first: nat                   // first frame past the kernel
    var mem: Memory
    var freelist: seq<nat>
    ghost var role: Roles

    /** Before kinit: the kernel has all frames. */
    constructor (first: nat, mem: Memory)
      requires |mem| <= NPAGES
      ensures Valid() && this.first == first && this.mem == mem && freelist == []
      ensures role == seq(|mem|, f => Held)
    {
      this.first, this.mem, freelist := first, mem, [];
      role := seq(|mem|, f => Held);
    }

    ghost predicate Valid()
      reads this
    {
      && Sane(mem, role) && PoolOk(freelist, role)
      && forall f :: 0 <= f < |role| && role[f] != Held ==> f >= first
    }

    /** Directory pd is an address space. */
    ghost predicate Space(pd: nat)
      reads this
    {
      pd < |mem| == |role| && role[pd] == Dir
    }

    /** Since pd was `dir` and the pool had `pool` frames, entries i .. j have got tables, and n frames are gone. */
    ghost predicate Paid(pd: nat, dir: Page, pool: nat, i: nat, j: nat, n: nat)
      reads this`mem, this`freelist
    {
      pd < |mem| && Opened(dir, mem[pd], i, j) && |freelist| + n == pool
    }

    /** kalloc */
    method KAlloc() returns (ok: bool, f: nat)
      requires Valid()
      modifies this`freelist, this`role
      ensures Valid() && ok == (old(freelist) != [])
      ensures ok ==> first <= f < |role| && old(role)[f] == Free && role == old(role)[f := Held]
      ensures ok ==> f == old(freelist)[0] && freelist == old(freelist)[1..]
      ensures !ok ==> freelist == old(freelist) && role == old(role)
    {
      if freelist == [] {
        return false, 0;
      }
      f := freelist[0];
      Pop(freelist, role);
      Hand(mem, role, f, Held, mem[f]);
      assert mem[f := mem[f]] == mem;
      freelist := freelist[1..];
      role := role[f := Held];
      return true, f;
    }

    /** kfree; the panics are for frames outside the pool's range. */
    method KFree(f: nat)
      requires first <= f < |mem|
      modifies this`mem, this`freelist
      ensures mem == old(mem)[f := JunkPage()] && freelist == [f] + old(freelist)
      ensures forall j :: 0 <= j < 1024 ==> mem[f][j] == 0x0101_0101
    {
      mem := mem[f := JunkPage()];
      freelist := [f] + freelist;
    }

    /** kfree of a frame the kernel holds. */
    method Release(f: nat)
      requires Valid() && first <= f < |mem| && role[f] == Held
      modifies this`mem, this`freelist, this`role
      ensures Valid() && role == old(role)[f := Free] && mem == old(mem)[f := JunkPage()]
      ensures SameMaps(old(mem), mem, role) && freelist == [f] + old(freelist)
    {
      Hand(mem, role, f, Free, JunkPage());
      Push(freelist, role, f);
      KFree(f);
      role := role[f := Free];
    }

    /** Frames lo .. p have gone from the kernel to the pool, the last one first on the list. */
    ghost predicate Pooled(m: Memory, ro: Roles, pool: seq<nat>, lo: nat, p: nat)
      reads this
    {
      && |mem| == |m| && |role| == |ro|
      && (forall f :: 0 <= f < |role| ==> role[f] == if lo <= f < p then Free else ro[f])
      && (forall f :: 0 <= f < |mem| && !(lo <= f < p) ==> mem[f] == m[f])
      && freelist == Falling(lo, p) + pool
    }

    /** One frame more. */
    method FreeFrame(p: nat, ghost lo: nat, ghost next: nat, ghost m: Memory, ghost ro: Roles, ghost pool: seq<nat>)
      requires Valid() && first <= lo <= p < |mem| && next == p + 1 && role[p] == Held && Pooled(m, ro, pool, lo, p)
      modifies this`mem, this`freelist, this`role
      ensures Valid() && Pooled(m, ro, pool, lo, next)
    {
      FallingNext(lo, p, next, pool);
      Release(p);
    }

    /** The loop of freerange on frames lo .. hi. */
    method FreeFrames(vend: nat, lo: nat, ghost hi: nat)
      requires Valid() && first <= lo <= hi == vend / PGSIZE <= |mem|
      requires forall f :: lo <= f < hi ==> role[f] == Held
      modifies this`mem, this`freelist, this`role
      ensures Valid() && Pooled(old(mem), old(role), old(freelist), lo, hi)
    {
      var p := lo;
      assert Falling(p, p) + freelist == freelist;
      while p * PGSIZE + PGSIZE <= vend
        invariant Valid() && lo <= p <= hi && Pooled(old(mem), old(role), old(freelist), lo, p)
      {
        var next := p + 1;
        FreeFrame(p, lo, next, old(mem), old(role), old(freelist));
        p := next;
      }
    }

    /** freerange: the whole pages of vstart .. vend go to the pool. */
    method FreeRange(vstart: nat, vend: nat)
      requires Valid() && first <= PageUp(vstart) && vend / PGSIZE <= |mem|
      requires forall f :: PageUp(vstart) <= f < vend / PGSIZE ==> role[f] == Held
      modifies this`mem, this`freelist, this`role
      ensures Valid() && Pooled(old(mem), old(role), old(freelist), PageUp(vstart), vend / PGSIZE)
    {
      var lo := PageUp(vstart);
      if lo <= vend / PGSIZE {
        FreeFrames(vend, lo, vend / PGSIZE);
      } else {
        assert Falling(lo, vend / PGSIZE) + freelist == freelist;
      }
    }

    /** memset of a frame the kernel holds. */
    method Fill(f: nat, p: Page)
      requires Valid() && f < |mem| && role[f] == Held
      modifies this`mem
      ensures Valid() && mem == old(mem)[f := p] && SameMaps(old(mem), mem, role)
    {
      Hand(mem, role, f, Held, p);
      assert role[f := Held] == role;
      mem := mem[f := p];
    }

    /** walkpgdir. No mapping changes; a missing table is made when asked for and the pool is not empty. */
    method WalkPgdir(pd: nat, v: nat, alloc: bool) returns (ok: bool, t: nat)
      requires Valid() && Space(pd) && v < NPAGES
      modifies this
      ensures Valid() && Space(pd) && SameMaps(old(mem), mem, role) && Grown(old(mem), old(role), mem, role, pd)
      ensures ok ==> Present(mem[pd][Pdx(v)]) && t == TableOf(mem, pd, v) < |mem|
      ensures !ok ==> mem == old(mem) && role == old(role) && freelist == old(freelist)
      ensures ok <==> Present(old(mem)[pd][Pdx(v)]) || (alloc && old(freelist) != [])
      ensures ok && !Present(old(mem)[pd][Pdx(v)]) ==> mem[pd] == old(mem)[pd][Pdx(v) := Entry(t, PTE_W + PTE_U)]
      ensures !alloc ==> mem == old(mem) && role == old(role) && freelist == old(freelist)
      ensures ok ==> Paid(pd, old(mem)[pd], |old(freelist)|, Pdx(v), Pdx1(v), Gap(old(mem)[pd], Pdx(v)))
    {
      assert DirOk(mem, role, pd, Pdx(v));
      if Present(mem[pd][Pdx(v)]) {
        return true, FrameOf(mem[pd][Pdx(v)]);
      }
      if !alloc {
        return false, 0;
      }
      ok, t := KAlloc();
      if !ok {
        return false, 0;
      }
      Fill(t, ZeroPage());
      NewTable(mem, role, pd, Pdx(v), t);
      EntryFields(t, PTE_W + PTE_U);
      Repurpose(freelist, role, t, Table(pd, Pdx(v)));
      mem := SetWord(mem, pd, Pdx(v), Entry(t, PTE_W + PTE_U));
      role := role[t := Table(pd, Pdx(v))];
    }

    /** The entry of page v, whose table is there, is written. */
    method WriteMapping(pd: nat, v: nat, t: nat, frame: nat, perm: nat)
      requires Valid() && Space(pd) && v < NPAGES && frame < NPAGES && perm < 4096
      requires Present(mem[pd][Pdx(v)]) && t == TableOf(mem, pd, v) && !Present(Pte(mem, pd, v))
      requires v < USERPAGES ==> first <= frame < |role| && role[frame] == Held
      modifies this`mem, this`role
      ensures Valid() && Space(pd) && mem[pd] == old(mem)[pd]
      ensures Grown(old(mem), Offered(old(role), frame, v < USERPAGES), mem, role, pd)
      ensures v < USERPAGES ==> mem[frame] == old(mem)[frame]
      ensures forall x :: 0 <= x < NPAGES ==>
        Pte(mem, pd, x) == if x == v then Entry(frame, perm) else Pte(old(mem), pd, x)
    {
      assert DirOk(mem, role, pd, Pdx(v));
      forall x | 0 <= x < NPAGES
        ensures Pte(SetWord(mem, t, Ptx(v), Entry(frame, perm)), pd, x) ==
          if x == v then Entry(frame, perm) else Pte(mem, pd, x)
      {
        WriteEntry(mem, role, pd, v, Entry(frame, perm), pd, x);
      }
      if v < USERPAGES {
        MapUser(mem, role, pd, v, frame, perm);
        Repurpose(freelist, role, frame, User(pd, v));
        role := role[frame := User(pd, v)];
      } else {
        MapKernel(mem, role, pd, v, Entry(frame, perm));
      }
      mem := SetWord(mem, t, Ptx(v), Entry(frame, perm));
    }

    /** One turn of mappages: page v is mapped to the frame, unless it is mapped already or there is no table. */
    method MapPage(pd: nat, v: nat, frame: nat, perm: nat) returns (r: MapResult)
      requires Valid() && Space(pd) && v < NPAGES && frame < NPAGES && perm < 4096
      requires v < USERPAGES ==> first <= frame < |role| && role[frame] == Held
      modifies this
      ensures Valid() && Space(pd)
      ensures r == Remap ==> Present(Pte(old(mem), pd, v))
      ensures r == NoTable <==> |old(freelist)| < Gap(old(mem)[pd], Pdx(v))
      ensures r != NoTable ==> Paid(pd, old(mem)[pd], |old(freelist)|, Pdx(v), Pdx1(v), Gap(old(mem)[pd], Pdx(v)))
      ensures r != Mapped ==> SameMaps(old(mem), mem, role) && Grown(old(mem), old(role), mem, role, pd)
      ensures r == Mapped ==> Grown(old(mem), Offered(old(role), frame, v < USERPAGES), mem, role, pd)
      ensures r == Mapped && v < USERPAGES ==> mem[frame] == old(mem)[frame]
      ensures r == Mapped ==> forall x :: 0 <= x < NPAGES ==>
        Pte(mem, pd, x) == if x == v then Entry(frame, perm) else Pte(old(mem), pd, x)
    {
      var ok, t := WalkPgdir(pd, v, true);
      if !ok {
        return NoTable;
      }
      if Present(mem[t][Ptx(v)]) {
        return Remap;
      }
      WriteMapping(pd, v, t, frame, perm);
      return Mapped;
    }

    /** One turn of mappages, with its account: tables for entries i .. j have taken n frames. */
    method MapNext(pd: nat, v: nat, frame: nat, perm: nat, ghost v': nat, ghost lo: nat, ghost dir: Page,
                   ghost pool: nat,
                   ghost i: nat, ghost j: nat, ghost n: nat)
      returns (r: MapResult, ghost j': nat, ghost n': nat)
      requires Valid() && Space(pd) && lo <= v < v' == v + 1 <= NPAGES && frame < NPAGES && perm < 4096
      requires v < USERPAGES ==> first <= frame < |role| && role[frame] == Held
      requires i == Pdx(lo) && j == DirTop(lo, v) <= NPDENTRIES && Paid(pd, dir, pool, i, j, n) && n == Gaps(dir, i, j)
      modifies this
      ensures Valid() && Space(pd)
      ensures r == Remap ==> Present(Pte(old(mem), pd, v))
      ensures r != Mapped ==> SameMaps(old(mem), mem, role) && Grown(old(mem), old(role), mem, role, pd)
      ensures r == Mapped ==> Grown(old(mem), Offered(old(role), frame, v < USERPAGES), mem, role, pd)
      ensures r == Mapped && v < USERPAGES ==> mem[frame] == old(mem)[frame]
      ensures r == Mapped ==> forall x :: 0 <= x < NPAGES ==>
        Pte(mem, pd, x) == if x == v then Entry(frame, perm) else Pte(old(mem), pd, x)
      ensures i <= j <= j' == DirTop(lo, v') <= NPDENTRIES && n' == Gaps(dir, i, j')
      ensures r == NoTable ==> pool < n'
      ensures r != NoTable ==> Paid(pd, dir, pool, i, j', n')
    {
      ghost var dir1, i' := mem[pd], Pdx(v);
      j' := Pdx1(v);
      NextPage(lo, v, v', i, j, i', j');
      GapsSplit(dir, dir1, i, j, i', j');
      OneGap(dir1, i', j');
      n' := Gaps(dir, i, j');
      r := MapPage(pd, v, frame, perm);
      if r != NoTable {
        OpenedMore(dir, dir1, mem[pd], i, j, i', j');
      }
    }

    /** Where the loop of mappages stands before page a, having started at page v from memory m, roles ro and `pool`
        frames in the pool. */
    ghost predicate Mapping(m: Memory, ro: Roles, pool: nat, pd: nat, v: nat, a: nat, frame: nat, perm: nat, i: nat,
                            top: nat)
      requires Space(pd) && pd < |m| && v <= a <= NPAGES && frame + (a - v) <= NPAGES && perm < 4096
      requires top <= NPDENTRIES
      reads this
    {
      && Grown(m, ro, mem, role, pd) && MappedRun(m, mem, pd, v, a, frame, perm)
      && Paid(pd, m[pd], pool, i, top, Gaps(m[pd], i, top))
    }

    /** The loop of mappages, on pages v .. end. */
    method MapRange(pd: nat, v: nat, end: nat, frame: nat, perm: nat, ghost i: nat, ghost j: nat)
      returns (ok: bool, a: nat)
      requires Valid() && Space(pd) && perm < 4096 && v < end <= NPAGES && frame + (end - v) <= NPAGES
      requires forall k :: v <= k < end ==> !Present(Pte(mem, pd, k))
      requires v < USERPAGES ==> end == v + 1 && first <= frame < |role| && role[frame] == Held
      requires i == Pdx(v) && j == DirTop(v, end) <= NPDENTRIES
      modifies this
      ensures Valid() && Space(pd) && v <= a <= end && (ok <==> a == end)
      ensures Grown(old(mem), Offered(old(role), frame, v < USERPAGES && ok), mem, role, pd)
      ensures v < USERPAGES ==> mem[frame] == old(mem)[frame]
      ensures MappedRun(old(mem), mem, pd, v, a, frame, perm)
      ensures ok <==> |old(freelist)| >= Gaps(old(mem)[pd], i, j)
      ensures ok ==> Paid(pd, old(mem)[pd], |old(freelist)|, i, j, Gaps(old(mem)[pd], i, j))
    {
      var f := frame;
      a := v;
      ghost var top, n := DirTop(v, v), 0;
      TopGrows(v, v, end);
      while true
        invariant Valid() && Space(pd) && v <= a < end && f == frame + (a - v)
        invariant v < USERPAGES ==> mem == old(mem) && role == old(role)
        invariant top == DirTop(v, a) <= NPDENTRIES && n == Gaps(old(mem)[pd], i, top)
        invariant Mapping(old(mem), old(role), |old(freelist)|, pd, v, a, frame, perm, i, top)
        decreases end - a
      {
        var r;
        var next := a + 1;
        ghost var m1, ro1 := mem, role;
        r, top, n := MapNext(pd, a, f, perm, next, v, old(mem)[pd], |old(freelist)|, i, top, n);
        if r != Mapped {
          GrownTwice(old(mem), old(role), m1, ro1, mem, role, pd);
          TopGrows(v, next, end);
          GapsGrow(old(mem)[pd], i, top, j);
          return false, a;
        }
        RunNext(old(mem), m1, mem, pd, v, a, next, frame, f, perm);
        a, f := next, f + 1;
        if a == end {
          if v >= USERPAGES { GrownTwice(old(mem), old(role), m1, ro1, mem, role, pd); }
          return true, a;
        }
        GrownTwice(old(mem), old(role), m1, ro1, mem, role, pd);
      }
    }

    /** mappages: the pages of va .. va + size are mapped to consecutive frames, or as many of them as the pool has
        tables for; all of them exactly when the pool has a frame for each table that is missing. For user pages, which
        are mapped one at a time, the frame then belongs to the address space. */
    method MapPages(pd: nat, va: nat, size: nat, pa: nat, perm: nat, ghost i: nat, ghost j: nat)
      returns (ok: bool, ghost m: nat)
      requires Valid() && Space(pd) && perm < 4096 && size >= 1 && va + size <= 0x1_0000_0000
      requires pa % PGSIZE == 0 && pa / PGSIZE + Spanned(va, size) <= NPAGES
      requires forall k :: va / PGSIZE <= k < va / PGSIZE + Spanned(va, size) ==> !Present(Pte(mem, pd, k))
      requires va / PGSIZE < USERPAGES ==>
        Spanned(va, size) == 1 && first <= pa / PGSIZE < |role| && role[pa / PGSIZE] == Held
      requires i == Pdx(va / PGSIZE) && j == Pdx1((va + size - 1) / PGSIZE)
      modifies this
      ensures Valid() && Space(pd) && m <= Spanned(va, size) && (ok <==> m == Spanned(va, size))
      ensures Grown(old(mem), Offered(old(role), pa / PGSIZE, va / PGSIZE < USERPAGES && ok), mem, role, pd)
      ensures va / PGSIZE < USERPAGES ==> mem[pa / PGSIZE] == old(mem)[pa / PGSIZE]
      ensures forall x :: 0 <= x < NPAGES ==>
        Pte(mem, pd, x) == if va / PGSIZE <= x < va / PGSIZE + m then Entry(pa / PGSIZE + (x - va / PGSIZE), perm)
                           else Pte(old(mem), pd, x)
      ensures j <= NPDENTRIES && (ok <==> |old(freelist)| >= Gaps(old(mem)[pd], i, j))
      ensures ok ==> Paid(pd, old(mem)[pd], |old(freelist)|, i, j, Gaps(old(mem)[pd], i, j))
    {
      var v, last, frame := va / PGSIZE, (va + size - 1) / PGSIZE, pa / PGSIZE;
      SpannedPages(va, size);
      TopGrows(v, last + 1, last + 1);
      var a;
      ok, a := MapRange(pd, v, last + 1, frame, perm, i, j);
      m := a - v;
    }

    /** kfree of the frame of a mapped page, whose entry is cleared. */
    method FreePage(pd: nat, v: nat, t: nat)
      requires Valid() && Space(pd) && v < USERPAGES && Present(Pte(mem, pd, v)) && t == TableOf(mem, pd, v)
      modifies this
      ensures Valid() && Space(pd) && Phys(mem, freelist) == Drop(Phys(old(mem), old(freelist)), pd, v)
      ensures Shrunk(old(mem), old(role), mem, role, pd, v, v + 1)
    {
      ghost var u := FrameOf(Pte(mem, pd, v));
      assert DirOk(mem, role, pd, Pdx(v));
      Unmap(mem, role, pd, v, u);
      OneUserFrame(mem, role, pd, v, u);
      Push(freelist, role, u);
      KFree(FrameOf(mem[t][Ptx(v)]));
      mem := SetWord(mem, t, Ptx(v), 0);
      role := role[u := Free];
    }

    /** The turn of deallocuvm's loop at a page that has a table. */
    method DropPage(pd: nat, v: nat, t: nat)
      requires Valid() && Space(pd) && v < USERPAGES && Present(mem[pd][Pdx(v)]) && t == TableOf(mem, pd, v) < |mem|
      modifies this
      ensures Valid() && Space(pd) && Phys(mem, freelist) == Drop(Phys(old(mem), old(freelist)), pd, v)
      ensures Shrunk(old(mem), old(role), mem, role, pd, v, v + 1)
    {
      if Present(mem[t][Ptx(v)]) {
        FreePage(pd, v, t);
      } else {
        ShrunkSkip(mem, role, pd, v, v + 1);
      }
    }

    /** One turn of deallocuvm's loop at page a: the page, or all pages of a missing table, are done. */
    method DropFrom(pd: nat, a: nat, ghost hi: nat) returns (next: nat)
      requires Valid() && Space(pd) && a < hi <= USERPAGES
      modifies this
      ensures Valid() && Space(pd) && a < next
      ensures DropAll(Phys(mem, freelist), pd, next, hi) == DropAll(Phys(old(mem), old(freelist)), pd, a, hi)
      ensures Shrunk(old(mem), old(role), mem, role, pd, a, Min(next, hi))
    {
      var ok, t := WalkPgdir(pd, a, false);
      if !ok {
        SkipTable(mem, freelist, role, pd, a, hi);
        next := (Pdx(a) + 1) * NPDENTRIES - 1;
      } else {
        next := a;
        DropPage(pd, a, t);
      }
      next := next + 1;
    }

    /** deallocuvm. Skipping over the pages of a missing table frees the same frames, in the same order, as a plain loop
        over all pages. */
    method DeallocUvm(pd: nat, oldsz: nat, newsz: nat) returns (r: nat)
      requires Valid() && Space(pd) && oldsz <= KERNBASE
      modifies this
      ensures Valid() && Space(pd)
      ensures newsz >= oldsz ==> r == oldsz && mem == old(mem) && role == old(role) && freelist == old(freelist)
      ensures newsz < oldsz ==> r == newsz && Shrunk(old(mem), old(role), mem, role, pd, PageUp(newsz), PageUp(oldsz))
      ensures newsz < oldsz ==>
        Phys(mem, freelist) == DropAll(Phys(old(mem), old(freelist)), pd, PageUp(newsz), PageUp(oldsz))
    {
      if newsz >= oldsz {
        return oldsz;
      }
      var a := PageUp(newsz);
      ghost var lo, hi := a, PageUp(oldsz);
      while a * PGSIZE < oldsz
        invariant Valid() && Space(pd) && lo <= a && lo <= hi
        invariant DropAll(Phys(mem, freelist), pd, a, hi) == DropAll(Phys(old(mem), old(freelist)), pd, lo, hi)
        invariant Shrunk(old(mem), old(role), mem, role, pd, lo, Min(a, hi))
        decreases hi - a
      {
        ghost var m, ro, b := mem, role, a;
        a := DropFrom(pd, a, hi);
        ShrunkMore(old(mem), old(role), m, ro, mem, role, pd, lo, b, Min(a, hi));
      }
      return newsz;
    }

    /** The start of freevm: no user pages, and the directory out of use. */
    method FreeUser(pd: nat)
      requires Valid() && Space(pd)
      modifies this
      ensures Valid() && Going(old(mem), old(role), mem, role, pd, 0)
    {
      var r := DeallocUvm(pd, KERNBASE, 0);
      forall f | 0 <= f < |role| ensures !(role[f].User? && role[f].pd == pd) {
        assert OwnerOk(mem, role, f);
      }
      Doom(mem, role, pd);
      Repurpose(freelist, role, pd, Doomed);
      role := role[pd := Doomed];
      forall f | 0 <= f < |role| && f != pd
        ensures role[f] == if Belongs(old(role)[f], f, pd) && !old(role)[f].Table? then Free else old(role)[f]
      {
        assert OwnerOk(old(mem), old(role), f);
      }
    }

    /** One table of freevm's loop. */
    method FreeTable(pd: nat, i: nat, ghost m: Memory, ghost ro: Roles)
      requires Valid() && Sane(m, ro) && i < NPDENTRIES && Going(m, ro, mem, role, pd, i) && ro[pd] == Dir
      modifies this
      ensures Valid() && Going(m, ro, mem, role, pd, i + 1)
    {
      assert DirOk(m, ro, pd, i);
      OneTable(m, ro, pd, i);
      if Present(mem[pd][i]) {
        ghost var t := FrameOf(mem[pd][i]);
        TakeApart(mem, role, t);
        Push(freelist, role, t);
        KFree(FrameOf(mem[pd][i]));
        role := role[t := Free];
      }
    }

    /** freevm: every frame of the address space goes back to the pool. */
    method FreeVm(pd: nat)
      requires Valid() && Space(pd)
      modifies this
      ensures Valid() && Gone(old(mem), old(role), mem, role, pd)
    {
      FreeUser(pd);
      for i := 0 to NPDENTRIES
        invariant Valid() && Going(old(mem), old(role), mem, role, pd, i)
      {
        FreeTable(pd, i, old(mem), old(role));
      }
      forall f | 0 <= f < |role| ensures !(role[f].Table? && role[f].pd == pd) {
        assert OwnerOk(old(mem), old(role), f);
      }
      TakeApart(mem, role, pd);
      Push(freelist, role, pd);
      KFree(pd);
      role := role[pd := Free];
      forall f | 0 <= f < |role| ensures role[f] == if Belongs(old(role)[f], f, pd) then Free else old(role)[f] {
        assert OwnerOk(old(mem), old(role), f);
      }
    }

    /** The start of setupkvm: a directory that maps nothing. */
    method MakeDirectory() returns (ok: bool, pd: nat)
      requires Valid()
      modifies this
      ensures Valid() && (ok <==> old(freelist) != [])
      ensures !ok ==> mem == old(mem) && role == old(role)
      ensures ok ==> Space(pd) && Grown(old(mem), old(role), mem, role, pd) && old(role)[pd] == Free
      ensures ok ==> forall x :: 0 <= x < NPAGES ==> Pte(mem, pd, x) == 0
      ensures ok ==> mem[pd] == ZeroPage() && |freelist| + 1 == |old(freelist)|
    {
      ok, pd := KAlloc();
      if ok {
        Fill(pd, ZeroPage());
        NewDir(mem, role, pd);
        Repurpose(freelist, role, pd, Dir);
        role := role[pd := Dir];
      }
    }

    /** One line of kmap. */
    method MapRegion(pd: nat, data: nat, k: nat) returns (ok: bool)
      requires Valid() && Space(pd) && DataAddress(data) && k < 4 && KernDir(mem[pd], data, k)
      requires forall x :: 0 <= x < NPAGES ==> Pte(mem, pd, x) == KernelPte(data, k, x)
      modifies this
      ensures Valid() && Space(pd) && Grown(old(mem), old(role), mem, role, pd)
      ensures ok ==> forall x :: 0 <= x < NPAGES ==> Pte(mem, pd, x) == KernelPte(data, k + 1, x)
      ensures ok ==> KernDir(mem[pd], data, k + 1)
      ensures ok <==> |old(freelist)| + KernTables(data, k) >= KernTables(data, k + 1)
      ensures ok ==> |freelist| + KernTables(data, k + 1) == |old(freelist)| + KernTables(data, k)
    {
      var r := Kmap(data, k);
      RegionPages(data, k);
      forall x | r.virt / PGSIZE <= x < r.virt / PGSIZE + Spanned(r.virt, r.size) ensures !Present(Pte(mem, pd, x)) {
        KmapApart(data, k, x);
      }
      ghost var n, dir, i, j := 0, mem[pd], Pdx(r.virt / PGSIZE), Pdx1((r.virt + r.size - 1) / PGSIZE);
      RegionGaps(dir, data, k, i, j);
      ok, n := MapPages(pd, r.virt, r.size, r.phys, r.perm, i, j);
      if ok {
        RegionOpened(dir, mem[pd], data, k, i, j);
      }
    }

    /** The loop of setupkvm, from memory m, roles ro and a pool of `pool` frames, before the directory was taken. */
    method MapKernel4(pd: nat, data: nat, ghost m: Memory, ghost ro: Roles, ghost pool: nat) returns (ok: bool)
      requires Valid() && Space(pd) && DataAddress(data) && Grown(m, ro, mem, role, pd) && KernDir(mem[pd], data, 0)
      requires (forall x :: 0 <= x < NPAGES ==> Pte(mem, pd, x) == 0) && |freelist| + 1 == pool
      modifies this
      ensures Valid() && Space(pd) && Grown(m, ro, mem, role, pd)
      ensures ok ==> forall x :: 0 <= x < NPAGES ==> Pte(mem, pd, x) == KernelPte(data, 4, x)
      ensures ok <==> pool >= KVMFRAMES
      ensures ok ==> |freelist| + KVMFRAMES == pool && KernDir(mem[pd], data, 4)
    {
      KernTablesGrow(data, 4);
      for k := 0 to 4
        invariant Valid() && Space(pd) && Grown(m, ro, mem, role, pd) && KernDir(mem[pd], data, k)
        invariant forall x :: 0 <= x < NPAGES ==> Pte(mem, pd, x) == KernelPte(data, k, x)
        invariant |freelist| + 1 + KernTables(data, k) == pool
      {
        ghost var m1, ro1 := mem, role;
        KernTablesGrow(data, k + 1);
        ok := MapRegion(pd, data, k);
        GrownTwice(m, ro, m1, ro1, mem, role, pd);
        if !ok {
          return;
        }
      }
      ok := true;
    }

    /** setupkvm: a new address space with the kernel's mappings and no user pages, exactly when the pool has KVMFRAMES
        frames; when it runs out, every frame taken goes back. */
    method SetupKvm(data: nat) returns (ok: bool, pd: nat)
      requires Valid() && DataAddress(data)
      modifies this
      ensures Valid() && (ok <==> |old(freelist)| >= KVMFRAMES)
      ensures !ok ==> role == old(role) && forall f :: 0 <= f < |role| && role[f] != Free ==> mem[f] == old(mem)[f]
      ensures ok ==> Space(pd) && Grown(old(mem), old(role), mem, role, pd) && old(role)[pd] == Free
      ensures ok ==> forall x :: 0 <= x < NPAGES ==> Pte(mem, pd, x) == KernelPte(data, 4, x)
      ensures ok ==> |freelist| + KVMFRAMES == |old(freelist)| && KernDir(mem[pd], data, 4)
    {
      ok, pd := MakeDirectory();
      if !ok {
        return;
      }
      ok := MapKernel4(pd, data, old(mem), old(role), |old(freelist)|);
      if !ok {
        GiveBack(pd, old(mem), old(role));
      }
    }

    /** freevm of an address space that has grown from nothing: every frame is as it was. */
    method GiveBack(pd: nat, ghost m: Memory, ghost ro: Roles)
      requires Valid() && Space(pd) && Sane(m, ro) && Grown(m, ro, mem, role, pd) && ro[pd] == Free
      modifies this
      ensures Valid() && role == ro && forall f :: 0 <= f < |role| && role[f] != Free ==> mem[f] == m[f]
    {
      ghost var m1, ro1 := mem, role;
      FreeVm(pd);
      GoneBack(m, ro, m1, ro1, mem, role, pd);
    }

    /** kalloc, and a first contents for the frame. */
    method AllocFilled(p: Page) returns (ok: bool, f: nat)
      requires Valid()
      modifies this
      ensures Valid() && ok == (old(freelist) != [])
      ensures ok ==> first <= f < |old(role)| == |old(mem)| && old(role)[f] == Free && role == old(role)[f := Held]
      ensures ok ==> mem == old(mem)[f := p] && SameMaps(old(mem), mem, old(role)) && |freelist| + 1 == |old(freelist)|
      ensures !ok ==> mem == old(mem) && role == old(role)
    {
      ok, f := KAlloc();
      if ok {
        Fill(f, p);
      }
    }

    /** mappages for one user page. */
    method MapUserPage(pd: nat, v: nat, f: nat, perm: nat) returns (ok: bool)
      requires Valid() && Space(pd) && v < USERPAGES && perm < 4096 && !Present(Pte(mem, pd, v))
      requires first <= f < |role| && role[f] == Held
      modifies this
      ensures Valid() && Space(pd)
      ensures Grown(old(mem), if ok then old(role)[f := Free] else old(role), mem, role, pd) && mem[f] == old(mem)[f]
      ensures forall x :: 0 <= x < NPAGES ==>
        Pte(mem, pd, x) == if ok && x == v then Entry(f, perm) else Pte(old(mem), pd, x)
      ensures ok <==> |old(freelist)| >= Gap(old(mem)[pd], Pdx(v))
      ensures ok ==> Paid(pd, old(mem)[pd], |old(freelist)|, Pdx(v), Pdx1(v), Gap(old(mem)[pd], Pdx(v)))
    {
      OnePage(v, f);
      OneGap(mem[pd], Pdx(v), Pdx1(v));
      ghost var n;
      ok, n := MapPages(pd, v * PGSIZE, PGSIZE, f * PGSIZE, perm, Pdx(v), Pdx1(v));
    }

    /** A frame is allocated, filled and mapped as page v, unless the pool has no frame for it or for the table it
        needs; in the second case the frame is still held. */
    method AddPage(pd: nat, v: nat, p: Page, perm: nat) returns (r: AddResult, f: nat)
      requires Valid() && Space(pd) && v < USERPAGES && perm < 4096 && !Present(Pte(mem, pd, v))
      modifies this
      ensures Valid() && Space(pd)
      ensures r == NoFrame ==> mem == old(mem) && role == old(role)
      ensures r == NoTablePage ==>
        first <= f < |role| && role[f] == Held && Grown(old(mem), old(role), mem, role[f := Free], pd)
      ensures r == Added ==> Grown(old(mem), old(role), mem, role, pd)
      ensures r == Added ==> f < |role| && old(role)[f] == Free && role[f] == User(pd, v) && mem[f] == p
      ensures forall x :: 0 <= x < NPAGES ==>
        Pte(mem, pd, x) == if r == Added && x == v && f < |role| then Entry(f, perm) else Pte(old(mem), pd, x)
      ensures r == Added <==> |old(freelist)| >= PageCost(old(mem)[pd], v)
      ensures r == Added ==> Paid(pd, old(mem)[pd], |old(freelist)|, Pdx(v), Pdx1(v), PageCost(old(mem)[pd], v))
    {
      var ok;
      ok, f := AllocFilled(p);
      if !ok {
        return NoFrame, 0;
      }
      ok := MapUserPage(pd, v, f, perm);
      if !ok {
        return NoTablePage, f;
      }
      EntryFields(f, perm);
      assert UserOk(mem, role, pd, v);
      return Added, f;
    }

    /** A frame is filled and mapped as page v of d, or everything is free that was. */
    method GivePage(d: nat, v: nat, p: Page, perm: nat) returns (ok: bool, f: nat)
      requires Valid() && Space(d) && v < USERPAGES && perm < 4096 && !Present(Pte(mem, d, v))
      modifies this
      ensures Valid() && Space(d) && Grown(old(mem), old(role), mem, role, d)
      ensures ok ==> f < |role| && old(role)[f] == Free && role[f] == User(d, v) && mem[f] == p
      ensures ok ==> forall x :: 0 <= x < NPAGES ==>
        Pte(mem, d, x) == if x == v then Entry(f, perm) else Pte(old(mem), d, x)
      ensures ok <==> |old(freelist)| >= PageCost(old(mem)[d], v)
      ensures ok ==> Paid(d, old(mem)[d], |old(freelist)|, Pdx(v), Pdx1(v), PageCost(old(mem)[d], v))
    {
      var r;
      r, f := AddPage(d, v, p, perm);
      if r == NoTablePage {
        Release(f);
      }
      ok := r == Added;
    }

    /** Page i of pd is copied into a new frame of d. */
    method CopyPage(d: nat, pd: nat, i: nat, ghost m: Memory, ghost ro: Roles) returns (ok: bool)
      requires Valid() && Space(d) && Sane(m, ro) && Grown(m, ro, mem, role, d) && ro[d] == Free
      requires pd < |ro| && ro[pd] == Dir && i < USERPAGES && Present(Pte(m, pd, i)) && CopiedTo(mem, role, d, m, pd, i)
      modifies this
      ensures Valid() && Space(d) && Grown(m, ro, mem, role, d)
      ensures ok ==> CopiedTo(mem, role, d, m, pd, i + 1) && SameKernel(mem, old(mem), d)
      ensures ok <==> |old(freelist)| >= PageCost(old(mem)[d], i)
      ensures ok ==> Paid(d, old(mem)[d], |old(freelist)|, Pdx(i), Pdx1(i), PageCost(old(mem)[d], i))
    {
      GrownElsewhere(m, ro, mem, role, d, pd, i);
      var found, t := WalkPgdir(pd, i, false);
      var e := mem[t][Ptx(i)];
      assert UserOk(m, ro, pd, i);
      ghost var m1, ro1 := mem, role;
      var f;
      ok, f := GivePage(d, i, mem[FrameOf(e)], FlagsOf(e));
      GrownTwice(m, ro, m1, ro1, mem, role, d);
      if ok {
        EntryFields(f, FlagsOf(e));
        CopiedMore(m1, ro1, mem, role, d, m, pd, i, f, e);
      }
    }

    /** Since pd was `dir` and the pool had `pool` frames, mapping pages lo .. a has taken what it should. */
    ghost predicate PaidPages(pd: nat, dir: Page, pool: nat, lo: nat, a: nat)
      requires lo <= a <= NPAGES && lo < NPAGES
      reads this`mem, this`freelist
    {
      Paid(pd, dir, pool, Pdx(lo), DirTop(lo, a), PagesCost(dir, lo, a))
    }

    /** One turn of copyuvm's loop, with its account. */
    method CopyNext(d: nat, pd: nat, i: nat, ghost i': nat, ghost m: Memory, ghost ro: Roles, ghost dir: Page,
                    ghost pool: nat)
      returns (ok: bool)
      requires Valid() && Space(d) && Sane(m, ro) && Grown(m, ro, mem, role, d) && ro[d] == Free
      requires pd < |ro| && ro[pd] == Dir && i < i' == i + 1 <= USERPAGES
      requires Present(Pte(m, pd, i)) && CopiedTo(mem, role, d, m, pd, i) && PaidPages(d, dir, pool, 0, i)
      modifies this
      ensures Valid() && Space(d) && Grown(m, ro, mem, role, d)
      ensures ok ==> CopiedTo(mem, role, d, m, pd, i') && PaidPages(d, dir, pool, 0, i')
      ensures ok ==> SameKernel(mem, old(mem), d)
      ensures ok <==> pool >= PagesCost(dir, 0, i')
    {
      ghost var dir1 := mem[d];
      CostNext(dir, dir1, 0, i, i');
      ok := CopyPage(d, pd, i, m, ro);
      if ok {
        OpenedNext(dir, dir1, mem[d], 0, i, i');
      }
    }

    /** The loop of copyuvm. */
    method CopyPages(d: nat, pd: nat, sz: nat, n: nat, ghost m: Memory, ghost ro: Roles) returns (ok: bool)
      requires Valid() && Space(d) && Sane(m, ro) && Grown(m, ro, mem, role, d) && ro[d] == Free
      requires pd < |ro| && ro[pd] == Dir && n == PageUp(sz) <= USERPAGES
      requires (forall v :: 0 <= v < n ==> Present(Pte(m, pd, v))) && CopiedTo(mem, role, d, m, pd, 0)
      modifies this
      ensures Valid() && Space(d) && Grown(m, ro, mem, role, d)
      ensures ok ==> CopiedTo(mem, role, d, m, pd, n) && SameKernel(mem, old(mem), d)
      ensures ok <==> |old(freelist)| >= PagesCost(old(mem)[d], 0, n)
    {
      var i := 0;
      NothingOpened(mem[d], 0);
      while i * PGSIZE < sz
        invariant Valid() && Space(d) && Grown(m, ro, mem, role, d) && i <= n
        invariant CopiedTo(mem, role, d, m, pd, i) && PaidPages(d, old(mem)[d], |old(freelist)|, 0, i)
        invariant SameKernel(mem, old(mem), d)
      {
        var next := i + 1;
        ok := CopyNext(d, pd, i, next, m, ro, old(mem)[d], |old(freelist)|);
        if !ok {
          CostGrows(old(mem)[d], 0, next, n);
          return;
        }
        i := next;
      }
      ok := true;
    }

    /** copyuvm. It succeeds exactly when the pool has a frame for each page and for each table and the directory;
        then the child has the parent's pages below sz, bytes and flags, in frames that were free, one for each page,
        and no other user pages. On failure exactly the same frames are free as before. The parent and every other
        address space are untouched. */
    method CopyUvm(pd: nat, sz: nat, data: nat) returns (ok: bool, d: nat)
      requires Valid() && Space(pd) && sz <= KERNBASE && DataAddress(data)
      requires forall v :: 0 <= v < PageUp(sz) ==> Present(Pte(mem, pd, v))
      modifies this
      ensures Valid()
      ensures ok ==> Space(d) && Grown(old(mem), old(role), mem, role, d) && old(role)[d] == Free
      ensures ok ==> CopiedTo(mem, role, d, old(mem), pd, PageUp(sz)) && KernelPart(mem, d, data)
      ensures !ok ==> role == old(role) && forall f :: 0 <= f < |role| && role[f] != Free ==> mem[f] == old(mem)[f]
      ensures ok <==> |old(freelist)| >= KVMFRAMES + PageUp(sz) + (PageUp(sz) + NPDENTRIES - 1) / NPDENTRIES
    {
      ok, d := SetupKvm(data);
      if !ok {
        return;
      }
      forall x | 0 <= x < USERPAGES ensures Pte(mem, d, x) == 0 { KernelOnly(data, 4, x); }
      CostFromNothing(mem[d], PageUp(sz));
      ok := CopyPages(d, pd, sz, PageUp(sz), old(mem), old(role));
      if !ok {
        GiveBack(d, old(mem), old(role));
      }
    }

    /** The pages lo .. n of pd are new, zeroed and writable by the user; other entries are as they were in memory m. */
    ghost predicate Extended(pd: nat, lo: nat, n: nat, m: Memory)
      requires Space(pd) && |m| == |mem|
      reads this
    {
      forall x :: 0 <= x < NPAGES ==>
        if lo <= x < n then
          && Present(Pte(mem, pd, x)) && FlagsOf(Pte(mem, pd, x)) == 1 + PTE_W + PTE_U
          && FrameOf(Pte(mem, pd, x)) < |mem| && mem[FrameOf(Pte(mem, pd, x))] == ZeroPage()
        else Pte(mem, pd, x) == Pte(m, pd, x)
    }

    /** One turn of allocuvm's loop. */
    method ExtendPage(pd: nat, lo: nat, a: nat, ghost m: Memory, ghost ro: Roles) returns (r: AddResult, f: nat)
      requires Valid() && Space(pd) && Sane(m, ro) && Grown(m, ro, mem, role, pd) && lo <= a < USERPAGES
      requires Extended(pd, lo, a, m) && !Present(Pte(m, pd, a))
      modifies this
      ensures Valid() && Space(pd)
      ensures r == Added ==> Grown(m, ro, mem, role, pd) && Extended(pd, lo, a + 1, m)
      ensures r == NoFrame ==> Grown(m, ro, mem, role, pd) && Extended(pd, lo, a, m)
      ensures r == NoTablePage ==> first <= f < |role| && role[f] == Held && Grown(m, ro, mem, role[f := Free], pd)
      ensures r == NoTablePage ==> forall x :: 0 <= x < NPAGES && !(lo <= x < a) ==> Pte(mem, pd, x) == Pte(m, pd, x)
      ensures r == Added <==> |old(freelist)| >= PageCost(old(mem)[pd], a)
      ensures r == Added ==> Paid(pd, old(mem)[pd], |old(freelist)|, Pdx(a), Pdx1(a), PageCost(old(mem)[pd], a))
    {
      ghost var m1, ro1 := mem, role;
      r, f := AddPage(pd, a, ZeroPage(), PTE_W + PTE_U);
      GrownTwice(m, ro, m1, ro1, mem, if r == NoTablePage then role[f := Free] else role, pd);
      if r == Added {
        EntryFields(f, PTE_W + PTE_U);
        forall x | lo <= x < a ensures mem[FrameOf(Pte(mem, pd, x))] == ZeroPage() {
          assert UserOk(m1, ro1, pd, x);
        }
      }
    }

    /** deallocuvm to a size not above the old one. */
    method Shrink(pd: nat, oldsz: nat, newsz: nat)
      requires Valid() && Space(pd) && newsz <= oldsz <= KERNBASE
      modifies this
      ensures Valid() && Space(pd) && Shrunk(old(mem), old(role), mem, role, pd, PageUp(newsz), PageUp(oldsz))
    {
      var r := DeallocUvm(pd, oldsz, newsz);
      if newsz == oldsz {
        ShrunkSkip(mem, role, pd, PageUp(newsz), PageUp(newsz));
      }
    }

    /** The error exits of allocuvm: what was mapped past oldsz is unmapped, and the frame still held, if any, is
        freed. */
    method TakeBack(pd: nat, oldsz: nat, newsz: nat, held: bool, f: nat, ghost m: Memory, ghost ro: Roles)
      requires Valid() && Space(pd) && Sane(m, ro) && oldsz <= newsz < KERNBASE
      requires held ==> first <= f < |role| && role[f] == Held
      requires Grown(m, ro, mem, if held then role[f := Free] else role, pd)
      requires forall x :: PageUp(oldsz) <= x < PageUp(newsz) ==> !Present(Pte(m, pd, x))
      requires forall x :: 0 <= x < NPAGES && !(PageUp(oldsz) <= x < PageUp(newsz)) ==> Pte(mem, pd, x) == Pte(m, pd, x)
      modifies this
      ensures Valid() && Space(pd) && Grown(m, ro, mem, role, pd)
      ensures forall x :: 0 <= x < NPAGES ==>
        if PageUp(oldsz) <= x < PageUp(newsz) then !Present(Pte(mem, pd, x)) else Pte(mem, pd, x) == Pte(m, pd, x)
    {
      ghost var lo, hi := PageUp(oldsz), PageUp(newsz);
      ghost var m1, ro1 := mem, role;
      Shrink(pd, newsz, oldsz);
      if held {
        ghost var m2, ro2 := mem, role;
        Release(f);
        ShrunkRelease(m1, ro1, m2, ro2, mem, pd, lo, hi, f);
      }
      GrownShrunk(m, ro, m1, if held then ro1[f := Free] else ro1, mem, role, pd, lo, hi);
    }

    /** One turn of allocuvm's loop, with its account. */
    method ExtendNext(pd: nat, lo: nat, a: nat, ghost a': nat, ghost m: Memory, ghost ro: Roles, ghost pool: nat)
      returns (r: AddResult, f: nat)
      requires Valid() && Space(pd) && Sane(m, ro) && Grown(m, ro, mem, role, pd) && lo <= a < a' == a + 1 <= USERPAGES
      requires Extended(pd, lo, a, m) && !Present(Pte(m, pd, a)) && PaidPages(pd, m[pd], pool, lo, a)
      modifies this
      ensures Valid() && Space(pd)
      ensures r == Added ==>
        Grown(m, ro, mem, role, pd) && Extended(pd, lo, a', m) && PaidPages(pd, m[pd], pool, lo, a')
      ensures r == NoFrame ==> Grown(m, ro, mem, role, pd) && Extended(pd, lo, a, m)
      ensures r == NoTablePage ==> first <= f < |role| && role[f] == Held && Grown(m, ro, mem, role[f := Free], pd)
      ensures r == NoTablePage ==> forall x :: 0 <= x < NPAGES && !(lo <= x < a) ==> Pte(mem, pd, x) == Pte(m, pd, x)
      ensures r == Added <==> pool >= PagesCost(m[pd], lo, a')
    {
      ghost var dir1 := mem[pd];
      CostNext(m[pd], dir1, lo, a, a');
      r, f := ExtendPage(pd, lo, a, m, ro);
      if r == Added {
        OpenedNext(m[pd], dir1, mem[pd], lo, a, a');
      }
    }

    /** The loop of allocuvm, up to page hi. */
    method ExtendTo(pd: nat, oldsz: nat, newsz: nat, lo: nat, ghost hi: nat) returns (ok: bool)
      requires Valid() && Space(pd) && oldsz <= newsz < KERNBASE && lo == PageUp(oldsz) && hi == PageUp(newsz)
      requires forall x :: lo <= x < USERPAGES ==> !Present(Pte(mem, pd, x))
      modifies this
      ensures Valid() && Space(pd) && Grown(old(mem), old(role), mem, role, pd) && lo <= hi <= USERPAGES
      ensures ok ==> Extended(pd, lo, hi, old(mem))
      ensures !ok ==> forall x :: 0 <= x < NPAGES ==>
        if lo <= x < hi then !Present(Pte(mem, pd, x)) else Pte(mem, pd, x) == Pte(old(mem), pd, x)
      ensures ok <==> |old(freelist)| >= PagesCost(old(mem)[pd], lo, hi)
    {
      var a := lo;
      NothingOpened(mem[pd], lo);
      while a * PGSIZE < newsz
        invariant Valid() && Space(pd) && Grown(old(mem), old(role), mem, role, pd) && lo <= a <= hi <= USERPAGES
        invariant Extended(pd, lo, a, old(mem)) && PaidPages(pd, old(mem)[pd], |old(freelist)|, lo, a)
      {
        var next := a + 1;
        var added, f := ExtendNext(pd, lo, a, next, old(mem), old(role), |old(freelist)|);
        if added != Added {
          CostGrows(old(mem)[pd], lo, next, hi);
          TakeBack(pd, oldsz, newsz, added == NoTablePage, f, old(mem), old(role));
          return false;
        }
        a := next;
      }
      return true;
    }

    /** allocuvm. It succeeds exactly when the pool has a frame for each new page and each missing table; then the
        pages from oldsz to newsz are new and zeroed. On failure no page is mapped that was not mapped before, and
        none lost. */
    method AllocUvm(pd: nat, oldsz: nat, newsz: nat) returns (r: nat)
      requires Valid() && Space(pd)
      requires forall x :: PageUp(oldsz) <= x < USERPAGES ==> !Present(Pte(mem, pd, x))
      modifies this
      ensures Valid() && Space(pd) && Grown(old(mem), old(role), mem, role, pd)
      ensures newsz >= KERNBASE ==> r == 0 && mem == old(mem)
      ensures newsz < oldsz && newsz < KERNBASE ==> r == oldsz && mem == old(mem)
      ensures oldsz <= newsz < KERNBASE ==> r == newsz || r == 0
      ensures oldsz <= newsz < KERNBASE && r == newsz && newsz > 0 ==>
        Extended(pd, PageUp(oldsz), PageUp(newsz), old(mem))
      ensures oldsz <= newsz < KERNBASE && r == 0 && newsz > 0 ==>
        forall x :: 0 <= x < NPAGES ==>
          if PageUp(oldsz) <= x < PageUp(newsz) then !Present(Pte(mem, pd, x))
          else Pte(mem, pd, x) == Pte(old(mem), pd, x)
      ensures oldsz <= newsz < KERNBASE ==>
        PageUp(oldsz) <= PageUp(newsz) <= USERPAGES
        && (r == newsz <==> |old(freelist)| >= PagesCost(old(mem)[pd], PageUp(oldsz), PageUp(newsz)))
    {
      if newsz >= KERNBASE {
        return 0;
      }
      if newsz < oldsz {
        return oldsz;
      }
      NothingOpened(mem[pd], PageUp(oldsz));
      var ok := ExtendTo(pd, oldsz, newsz, PageUp(oldsz), PageUp(newsz));
      return if ok then newsz else 0;
    }

    /** There is room to grow a process from sz to newsz. */
    static predicate CanGrow(dir: Page, pool: nat, sz: nat, newsz: nat)
      requires sz < newsz
    {
      && newsz < KERNBASE && PageUp(sz) <= PageUp(newsz) <= USERPAGES
      && pool >= PagesCost(dir, PageUp(sz), PageUp(newsz))
    }

    /** The user pages of pd are those below sz. */
    ghost predicate MappedTo(pd: nat, sz: nat)
      requires Space(pd)
      reads this
    {
      forall x :: 0 <= x < USERPAGES ==> (Present(Pte(mem, pd, x)) <==> x < PageUp(sz))
    }

    /** The two calls of growproc: the size that is returned, or the old one after a failure to grow, is mapped, and
        memory below it is as it was. */
    method SizeUp(pd: nat, sz: nat, newsz: nat) returns (r: nat)
      requires Valid() && Space(pd) && sz < newsz && sz < KERNBASE && MappedTo(pd, sz)
      modifies this
      ensures Valid() && Space(pd) && (r == 0 || r == newsz) && MappedTo(pd, if r == 0 then sz else newsz)
      ensures r == newsz <==> CanGrow(old(mem)[pd], |old(freelist)|, sz, newsz)
      ensures Undisturbed(old(mem), old(role), mem, role, pd, PageUp(sz))
      ensures r == newsz ==> Extended(pd, PageUp(sz), PageUp(newsz), old(mem))
    {
      r := AllocUvm(pd, sz, newsz);
      GrownUndisturbed(old(mem), old(role), mem, role, pd, PageUp(sz));
    }

    method SizeDown(pd: nat, sz: nat, newsz: nat) returns (r: nat)
      requires Valid() && Space(pd) && sz < KERNBASE && MappedTo(pd, sz)
      modifies this
      ensures Valid() && Space(pd) && r == (if newsz < sz then newsz else sz) && MappedTo(pd, r)
      ensures Undisturbed(old(mem), old(role), mem, role, pd, PageUp(r))
    {
      r := DeallocUvm(pd, sz, newsz);
      if newsz < sz { ShrunkUndisturbed(old(mem), old(role), mem, role, pd, PageUp(newsz), PageUp(sz)); }
    }

    /** growproc, for a process of size sz; it returns the new size as well. The size stays that of the mapped memory,
        except that shrinking to nothing is taken for a failure: the memory is gone and the size stays. */
    method GrowProc(pd: nat, sz: nat, n: int) returns (ok: bool, sz': nat)
      requires Valid() && Space(pd) && sz < KERNBASE && MappedTo(pd, sz) && -0x8000_0000 <= n < 0x8000_0000
      modifies this
      ensures Valid() && Space(pd)
      ensures MappedTo(pd, sz') <==> !(sz > 0 && sz + n == 0)
      ensures ok ==> sz' == if sz + n < 0 then sz else sz + n
      ensures !ok ==> sz' == sz
      ensures Undisturbed(old(mem), old(role), mem, role, pd, PageUp(if n >= 0 || sz + n < 0 then sz else sz + n))
      ensures ok && n > 0 ==> Extended(pd, PageUp(sz), PageUp(sz'), old(mem))
      ensures ok <==>
        if n > 0 then CanGrow(old(mem)[pd], |old(freelist)|, sz, sz + n) else n == 0 || (sz > 0 && sz + n != 0)
    {
      sz' := sz;
      if n > 0 {
        sz' := SizeUp(pd, sz, (sz + n) % 0x1_0000_0000);
        if sz' == 0 {
          return false, sz;
        }
      } else if n < 0 {
        sz' := SizeDown(pd, sz, (sz + n) % 0x1_0000_0000);
        if sz' == 0 {
          assert sz > 0 ==> Present(Pte(mem, pd, 0)) == false && 0 < PageUp(sz);
          return false, sz;
        }
      }
      return true, sz';
    }
  }

  /** The frames of a copy were free before, and there is one for each page. */
  lemma CopyIsFresh(m0: Memory, r0: Roles, mem: Memory, role: Roles, d: nat, pd: nat, n: nat, v: nat, w: nat)
    requires Sane(m0, r0) && d < |r0| && r0[d] == Free && Grown(m0, r0, mem, role, d) && pd < |m0| && n <= USERPAGES
    requires CopiedTo(mem, role, d, m0, pd, n) && v < n && w < n
    ensures FrameOf(Pte(mem, d, v)) < |r0| && r0[FrameOf(Pte(mem, d, v))] == Free
    ensures FrameOf(Pte(mem, d, v)) == FrameOf(Pte(mem, d, w)) ==> v == w
  {
    assert CopiedPage(mem, role, d, m0, pd, v) && CopiedPage(mem, role, d, m0, pd, w);
    assert OwnerOk(m0, r0, FrameOf(Pte(mem, d, v)));
  }

  /** One more page copied, the others kept. */
  lemma CopiedMore(m1: Memory, ro1: Roles, mem: Memory, role: Roles, d: nat, m: Memory, pd: nat, i: nat, f: nat,
                   e: Word)
    requires |m1| == |ro1| == |m| && d < |mem| && pd < |m| && i < USERPAGES && Grown(m1, ro1, mem, role, d)
    requires ro1[d] == Dir && CopiedTo(m1, ro1, d, m, pd, i) && e == Pte(m, pd, i) && FrameOf(e) < |m|
    requires f < |mem| && role[f] == User(d, i) && mem[f] == m[FrameOf(e)]
    requires Present(Pte(mem, d, i)) && FrameOf(Pte(mem, d, i)) == f && FlagsOf(Pte(mem, d, i)) == FlagsOf(e)
    requires forall x :: 0 <= x < NPAGES && x != i ==> Pte(mem, d, x) == Pte(m1, d, x)
    ensures CopiedTo(mem, role, d, m, pd, i + 1)
  {
    forall v | 0 <= v < i + 1 && v < USERPAGES ensures CopiedPage(mem, role, d, m, pd, v) {
      if v < i { assert CopiedPage(m1, ro1, d, m, pd, v); }
    }
  }

  /** An address space that grew from nothing and is gone leaves every frame as it was. */
  lemma GoneBack(m0: Memory, r0: Roles, m1: Memory, r1: Roles, m2: Memory, r2: Roles, pd: nat)
    requires Sane(m0, r0) && pd < |r0| && r0[pd] == Free && Grown(m0, r0, m1, r1, pd) && Gone(m1, r1, m2, r2, pd)
    ensures r2 == r0 && forall f :: 0 <= f < |r0| && r0[f] != Free ==> m2[f] == m0[f]
  {
    forall f | 0 <= f < |r0| ensures r2[f] == r0[f] && (r0[f] != Free ==> m2[f] == m0[f]) {
      assert OwnerOk(m0, r0, f);
    }
  }

  /** Entry i has one table. */
  lemma OneTable(mem: Memory, role: Roles, pd: nat, i: nat)
    requires Sane(mem, role) && pd < |role| && role[pd] == Dir && i < NPDENTRIES
    ensures forall f :: 0 <= f < |role| && role[f].Table? && role[f].pd == pd && role[f].i == i ==>
      Present(mem[pd][i]) && f == FrameOf(mem[pd][i])
  {
    forall f | 0 <= f < |role| && role[f].Table? && role[f].pd == pd && role[f].i == i
      ensures Present(mem[pd][i]) && f == FrameOf(mem[pd][i])
    {
      assert OwnerOk(mem, role, f);
    }
  }

  /** How many pages va .. va + size touch. */
  function Spanned(va: nat, size: nat): nat
    requires size >= 1
  {
    (va + size - 1) / PGSIZE - va / PGSIZE + 1
  }

  datatype AddResult = Added | NoFrame | NoTablePage

  datatype MapResult = Mapped | NoTable | Remap
}
