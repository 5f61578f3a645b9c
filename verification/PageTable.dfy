/** Two-level page tables in physical memory, as values: page frames, who owns each of them, and the mapping from page
    numbers to entries that the tables stand for. */
module PageTable {
  import opened Bytes

  const NPDENTRIES: nat := 1024
  const USERPAGES: nat := 0x8_0000             // KERNBASE / PGSIZE
  const NPAGES: nat := 0x10_0000               // pages of the 32-bit address space
  const PTE_W: nat := 2
  const PTE_U: nat := 4

  /** A page frame, as words. */
  type Page = p: seq<Word> | |p| == NPDENTRIES witness seq<Word>(NPDENTRIES, i => 0)

  function ZeroPage(): Page { seq<Word>(NPDENTRIES, i => 0) }

  /** What kfree leaves in a page. */
  function JunkPage(): Page { seq<Word>(NPDENTRIES, i => 0x0101_0101) }

  type Memory = seq<Page>

  // ---------------------------------------------------------------- entries

  predicate Present(w: Word) { w % 2 == 1 }

  function FrameOf(w: Word): nat { w / 4096 }

  function FlagsOf(w: Word): nat { w % 4096 }

  /** pa | perm | PTE_P for the page-aligned address of a frame. */
  function Entry(frame: nat, perm: nat): Word
    requires frame < NPAGES && perm < 4096
  {
    4096 * frame + (if perm % 2 == 1 then perm else perm + 1)
  }

  lemma EntryFields(frame: nat, perm: nat)
    requires frame < NPAGES && perm < 4096
    ensures Present(Entry(frame, perm)) && FrameOf(Entry(frame, perm)) == frame
    ensures FlagsOf(Entry(frame, perm)) == if perm % 2 == 1 then perm else perm + 1
  {
    var p := if perm % 2 == 1 then perm else perm + 1;
    assert p < 4096 && p % 2 == 1;
    LowBits(frame, p);
  }

  lemma LowBits(f: nat, p: nat)
    requires p < 4096
    ensures (4096 * f + p) / 4096 == f && (4096 * f + p) % 4096 == p && (4096 * f + p) % 2 == p % 2
  {
  }

  function Pdx(v: nat): nat { v / NPDENTRIES }

  function Ptx(v: nat): (j: nat)
    ensures j < NPDENTRIES
  {
    v % NPDENTRIES
  }

  lemma SamePage(v: nat, w: nat)
    requires Pdx(v) == Pdx(w) && Ptx(v) == Ptx(w)
    ensures v == w
  {
  }

  /** The table entry for page v under directory pd; 0 when there is no table. */
  function Pte(mem: Memory, pd: nat, v: nat): Word
    requires pd < |mem| && v < NPAGES
  {
    var e := mem[pd][Pdx(v)];
    if Present(e) && FrameOf(e) < |mem| then mem[FrameOf(e)][Ptx(v)] else 0
  }

  // ---------------------------------------------------------------- ownership

  /** What a frame is used for: on the free list, held by the kernel, a directory, one being taken apart, entry i's
      table of directory pd, or page v of its user memory. */
  datatype Role = Free | Held | Dir | Doomed | Table(pd: nat, i: nat) | User(pd: nat, v: nat)

  type Roles = seq<Role>

  predicate DirOk(mem: Memory, role: Roles, pd: nat, i: nat)
    requires |mem| == |role| && pd < |role| && i < NPDENTRIES
  {
    role[pd] == Dir && Present(mem[pd][i]) ==>
      && FrameOf(mem[pd][i]) < |role| && role[FrameOf(mem[pd][i])] == Table(pd, i)
      && FlagsOf(mem[pd][i]) == 1 + PTE_W + PTE_U
  }

  predicate UserOk(mem: Memory, role: Roles, pd: nat, v: nat)
    requires |mem| == |role| && pd < |role| && v < USERPAGES
  {
    role[pd] == Dir && Present(Pte(mem, pd, v)) ==>
      FrameOf(Pte(mem, pd, v)) < |role| && role[FrameOf(Pte(mem, pd, v))] == User(pd, v)
  }

  predicate OwnerOk(mem: Memory, role: Roles, f: nat)
    requires |mem| == |role| && f < |role|
  {
    match role[f]
    case Table(pd, i) =>
      pd < |role| && i < NPDENTRIES
      && (role[pd] == Doomed || (role[pd] == Dir && Present(mem[pd][i]) && FrameOf(mem[pd][i]) == f))
    case User(pd, v) =>
      pd < |role| && v < USERPAGES && role[pd] == Dir && Present(Pte(mem, pd, v)) && FrameOf(Pte(mem, pd, v)) == f
    case _ => true
  }

  /** Entries and owners agree in both directions; a frame has one owner, so no frame is mapped twice. */
  ghost predicate Sane(mem: Memory, role: Roles) {
    && |mem| == |role| <= NPAGES
    && (forall pd, i {:trigger DirOk(mem, role, pd, i)} :: 0 <= pd < |role| && 0 <= i < NPDENTRIES ==>
          DirOk(mem, role, pd, i))
    && (forall pd, v {:trigger UserOk(mem, role, pd, v)} :: 0 <= pd < |role| && 0 <= v < USERPAGES ==>
          UserOk(mem, role, pd, v))
    && (forall f {:trigger OwnerOk(mem, role, f)} :: 0 <= f < |role| ==> OwnerOk(mem, role, f))
  }

  // ---------------------------------------------------------------- changes to memory

  function SetWord(mem: Memory, f: nat, j: nat, w: Word): Memory
    requires f < |mem| && j < NPDENTRIES
  {
    mem[f := mem[f][j := w]]
  }

  /** Every directory maps every page as before. */
  ghost predicate SameMaps(mem: Memory, mem': Memory, role: Roles) {
    && |mem| == |mem'| == |role|
    && forall pd, v :: 0 <= pd < |role| && role[pd] == Dir && 0 <= v < NPAGES ==> Pte(mem', pd, v) == Pte(mem, pd, v)
  }

  /** Writing a frame that is neither a directory nor a table changes no mapping. */
  lemma WriteOther(mem: Memory, role: Roles, f: nat, p: Page)
    requires Sane(mem, role) && f < |mem| && role[f] != Dir && !role[f].Table?
    ensures SameMaps(mem, mem[f := p], role)
  {
    forall pd, v | 0 <= pd < |role| && role[pd] == Dir && 0 <= v < NPAGES
      ensures Pte(mem[f := p], pd, v) == Pte(mem, pd, v)
    {
      assert DirOk(mem, role, pd, Pdx(v));
    }
  }

  /** Writing the entry of page v changes that mapping alone. */
  lemma WriteEntry(mem: Memory, role: Roles, pd: nat, v: nat, w: Word, pd': nat, v': nat)
    requires Sane(mem, role) && pd < |role| && role[pd] == Dir && v < NPAGES
    requires Present(mem[pd][Pdx(v)]) && pd' < |role| && role[pd'] == Dir && v' < NPAGES
    ensures DirOk(mem, role, pd, Pdx(v)) && FrameOf(mem[pd][Pdx(v)]) < |mem|
    ensures Pte(SetWord(mem, FrameOf(mem[pd][Pdx(v)]), Ptx(v), w), pd', v') ==
      if pd' == pd && v' == v then w else Pte(mem, pd', v')
  {
    assert DirOk(mem, role, pd, Pdx(v)) && DirOk(mem, role, pd', Pdx(v'));
    if Pdx(v) == Pdx(v') && Ptx(v) == Ptx(v') { SamePage(v, v'); }
  }

  /** A new, empty table for entry i changes no mapping. */
  lemma WriteTable(mem: Memory, role: Roles, pd: nat, i: nat, t: nat)
    requires Sane(mem, role) && pd < |role| && role[pd] == Dir && i < NPDENTRIES && !Present(mem[pd][i])
    requires t < |mem| && role[t] == Held && mem[t] == ZeroPage()
    ensures SameMaps(mem, SetWord(mem, pd, i, Entry(t, PTE_W + PTE_U)), role)
  {
    var mem' := SetWord(mem, pd, i, Entry(t, PTE_W + PTE_U));
    EntryFields(t, PTE_W + PTE_U);
    forall q, v | 0 <= q < |role| && role[q] == Dir && 0 <= v < NPAGES ensures Pte(mem', q, v) == Pte(mem, q, v) {
      assert DirOk(mem, role, q, Pdx(v));
    }
  }

  // ---------------------------------------------------------------- steps that keep entries and owners in agreement

  /** A frame outside all address spaces changes hands, and perhaps its contents. */
  lemma Hand(mem: Memory, role: Roles, f: nat, r: Role, p: Page)
    requires Sane(mem, role) && f < |mem| && (role[f] == Free || role[f] == Held) && (r == Free || r == Held)
    ensures Sane(mem[f := p], role[f := r]) && SameMaps(mem, mem[f := p], role)
  {
    WriteOther(mem, role, f, p);
    var mem', role' := mem[f := p], role[f := r];
    forall pd, i | 0 <= pd < |role| && 0 <= i < NPDENTRIES ensures DirOk(mem', role', pd, i) {
      assert DirOk(mem, role, pd, i);
    }
    forall pd, v | 0 <= pd < |role| && 0 <= v < USERPAGES ensures UserOk(mem', role', pd, v) {
      assert UserOk(mem, role, pd, v);
    }
    forall g | 0 <= g < |role| ensures OwnerOk(mem', role', g) {
      assert OwnerOk(mem, role, g);
    }
  }

  /** A zeroed frame becomes a directory that maps nothing. */
  lemma NewDir(mem: Memory, role: Roles, pd: nat)
    requires Sane(mem, role) && pd < |mem| && role[pd] == Held && mem[pd] == ZeroPage()
    ensures Sane(mem, role[pd := Dir]) && forall v :: 0 <= v < NPAGES ==> Pte(mem, pd, v) == 0
  {
    var role' := role[pd := Dir];
    forall q, i | 0 <= q < |role| && 0 <= i < NPDENTRIES ensures DirOk(mem, role', q, i) {
      assert DirOk(mem, role, q, i);
    }
    forall q, v | 0 <= q < |role| && 0 <= v < USERPAGES ensures UserOk(mem, role', q, v) {
      assert UserOk(mem, role, q, v);
    }
    forall g | 0 <= g < |role| ensures OwnerOk(mem, role', g) {
      assert OwnerOk(mem, role, g);
    }
  }

  /** A zeroed frame becomes the table of entry i. */
  lemma NewTable(mem: Memory, role: Roles, pd: nat, i: nat, t: nat)
    requires Sane(mem, role) && pd < |role| && role[pd] == Dir && i < NPDENTRIES && !Present(mem[pd][i])
    requires t < |mem| && role[t] == Held && mem[t] == ZeroPage()
    ensures Sane(SetWord(mem, pd, i, Entry(t, PTE_W + PTE_U)), role[t := Table(pd, i)])
    ensures SameMaps(mem, SetWord(mem, pd, i, Entry(t, PTE_W + PTE_U)), role)
  {
    WriteTable(mem, role, pd, i, t);
    EntryFields(t, PTE_W + PTE_U);
    var mem', role' := SetWord(mem, pd, i, Entry(t, PTE_W + PTE_U)), role[t := Table(pd, i)];
    forall q, j | 0 <= q < |role| && 0 <= j < NPDENTRIES ensures DirOk(mem', role', q, j) {
      assert DirOk(mem, role, q, j);
    }
    forall q, v | 0 <= q < |role| && 0 <= v < USERPAGES ensures UserOk(mem', role', q, v) {
      assert UserOk(mem, role, q, v);
    }
    forall g | 0 <= g < |role| ensures OwnerOk(mem', role', g) {
      assert OwnerOk(mem, role, g);
    }
  }

  /** The frame that holds page v's entry. */
  function TableOf(mem: Memory, pd: nat, v: nat): nat
    requires pd < |mem| && v < NPAGES
  {
    FrameOf(mem[pd][Pdx(v)])
  }

  /** Page v of kernel space is mapped. */
  lemma MapKernel(mem: Memory, role: Roles, pd: nat, v: nat, w: Word)
    requires Sane(mem, role) && pd < |role| && role[pd] == Dir && USERPAGES <= v < NPAGES && Present(mem[pd][Pdx(v)])
    ensures TableOf(mem, pd, v) < |mem| && Sane(SetWord(mem, TableOf(mem, pd, v), Ptx(v), w), role)
  {
    assert DirOk(mem, role, pd, Pdx(v));
    var t := TableOf(mem, pd, v);
    var mem' := SetWord(mem, t, Ptx(v), w);
    forall q, j | 0 <= q < |role| && 0 <= j < NPDENTRIES ensures DirOk(mem', role, q, j) {
      assert DirOk(mem, role, q, j);
    }
    forall q, x | 0 <= q < |role| && 0 <= x < USERPAGES ensures UserOk(mem', role, q, x) {
      assert UserOk(mem, role, q, x);
      if role[q] == Dir { WriteEntry(mem, role, pd, v, w, q, x); }
    }
    forall g | 0 <= g < |role| ensures OwnerOk(mem', role, g) {
      assert OwnerOk(mem, role, g);
      if role[g].User? { WriteEntry(mem, role, pd, v, w, role[g].pd, role[g].v); }
    }
  }

  /** Page v of user space, unmapped so far, is mapped to a held frame. */
  lemma MapUser(mem: Memory, role: Roles, pd: nat, v: nat, u: nat, perm: nat)
    requires Sane(mem, role) && pd < |role| && role[pd] == Dir && v < USERPAGES && Present(mem[pd][Pdx(v)])
    requires u < |role| && role[u] == Held && perm < 4096 && !Present(Pte(mem, pd, v))
    ensures TableOf(mem, pd, v) < |mem|
    ensures Sane(SetWord(mem, TableOf(mem, pd, v), Ptx(v), Entry(u, perm)), role[u := User(pd, v)])
  {
    assert DirOk(mem, role, pd, Pdx(v));
    EntryFields(u, perm);
    var t := TableOf(mem, pd, v);
    var mem', role' := SetWord(mem, t, Ptx(v), Entry(u, perm)), role[u := User(pd, v)];
    forall q, j | 0 <= q < |role| && 0 <= j < NPDENTRIES ensures DirOk(mem', role', q, j) {
      assert DirOk(mem, role, q, j);
    }
    forall q, x | 0 <= q < |role| && 0 <= x < USERPAGES ensures UserOk(mem', role', q, x) {
      assert UserOk(mem, role, q, x);
      if role[q] == Dir { WriteEntry(mem, role, pd, v, Entry(u, perm), q, x); }
    }
    forall g | 0 <= g < |role| ensures OwnerOk(mem', role', g) {
      assert OwnerOk(mem, role, g);
      if role[g].User? { WriteEntry(mem, role, pd, v, Entry(u, perm), role[g].pd, role[g].v); }
      if g == u { WriteEntry(mem, role, pd, v, Entry(u, perm), pd, v); }
    }
  }

  /** Page v of user space is unmapped and its frame freed. */
  lemma Unmap(mem: Memory, role: Roles, pd: nat, v: nat, u: nat)
    requires Sane(mem, role) && pd < |role| && role[pd] == Dir && v < USERPAGES && Present(Pte(mem, pd, v))
    requires u == FrameOf(Pte(mem, pd, v))
    ensures u < |mem| && role[u] == User(pd, v) && TableOf(mem, pd, v) < |mem| && TableOf(mem, pd, v) != u
    ensures var mem' := SetWord(mem[u := JunkPage()], TableOf(mem, pd, v), Ptx(v), 0);
      && Sane(mem', role[u := Free])
      && forall q, x :: 0 <= q < |role| && role[q] == Dir && 0 <= x < NPAGES ==>
           Pte(mem', q, x) == if q == pd && x == v then 0 else Pte(mem, q, x)
  {
    assert UserOk(mem, role, pd, v) && DirOk(mem, role, pd, Pdx(v));
    var t := TableOf(mem, pd, v);
    assert SetWord(mem[u := JunkPage()], t, Ptx(v), 0) == SetWord(mem, t, Ptx(v), 0)[u := JunkPage()];
    UnmapFirst(mem, role, pd, v, u);
    Hand(SetWord(mem, t, Ptx(v), 0), role[u := Held], u, Free, JunkPage());
    forall q, x | 0 <= q < |role| && role[q] == Dir && 0 <= x < NPAGES
      ensures Pte(SetWord(mem[u := JunkPage()], t, Ptx(v), 0), q, x) == if q == pd && x == v then 0 else Pte(mem, q, x)
    {
      WriteEntry(mem, role, pd, v, 0, q, x);
    }
    assert role[u := Held][u := Free] == role[u := Free];
  }

  lemma UnmapFirst(mem: Memory, role: Roles, pd: nat, v: nat, u: nat)
    requires Sane(mem, role) && pd < |role| && role[pd] == Dir && v < USERPAGES && Present(Pte(mem, pd, v))
    requires u == FrameOf(Pte(mem, pd, v)) && u < |role| && role[u] == User(pd, v) && TableOf(mem, pd, v) < |mem|
    ensures Sane(SetWord(mem, TableOf(mem, pd, v), Ptx(v), 0), role[u := Held])
  {
    assert DirOk(mem, role, pd, Pdx(v));
    var mem', role' := SetWord(mem, TableOf(mem, pd, v), Ptx(v), 0), role[u := Held];
    forall q, j | 0 <= q < |role| && 0 <= j < NPDENTRIES ensures DirOk(mem', role', q, j) {
      assert DirOk(mem, role, q, j);
    }
    forall q, x | 0 <= q < |role| && 0 <= x < USERPAGES ensures UserOk(mem', role', q, x) {
      assert UserOk(mem, role, q, x);
      if role[q] == Dir { WriteEntry(mem, role, pd, v, 0, q, x); }
    }
    forall g | 0 <= g < |role| ensures OwnerOk(mem', role', g) {
      assert OwnerOk(mem, role, g);
      if role[g].User? { WriteEntry(mem, role, pd, v, 0, role[g].pd, role[g].v); }
    }
  }

  /** A directory without user pages is no longer used for mapping. */
  lemma Doom(mem: Memory, role: Roles, pd: nat)
    requires Sane(mem, role) && pd < |role| && role[pd] == Dir
    requires forall f :: 0 <= f < |role| ==> !(role[f].User? && role[f].pd == pd)
    ensures Sane(mem, role[pd := Doomed])
  {
    var role' := role[pd := Doomed];
    forall q, i | 0 <= q < |role| && 0 <= i < NPDENTRIES ensures DirOk(mem, role', q, i) {
      assert DirOk(mem, role, q, i);
    }
    forall q, v | 0 <= q < |role| && 0 <= v < USERPAGES ensures UserOk(mem, role', q, v) {
      assert UserOk(mem, role, q, v);
    }
    forall g | 0 <= g < |role| ensures OwnerOk(mem, role', g) {
      assert OwnerOk(mem, role, g);
    }
  }

  /** A table of such a directory, or the directory once it has no tables, is freed. */
  lemma TakeApart(mem: Memory, role: Roles, f: nat)
    requires Sane(mem, role) && f < |role|
    requires if role[f].Table? then role[f].pd < |role| && role[role[f].pd] == Doomed
             else role[f] == Doomed && forall g :: 0 <= g < |role| ==> !(role[g].Table? && role[g].pd == f)
    ensures Sane(mem[f := JunkPage()], role[f := Free]) && SameMaps(mem, mem[f := JunkPage()], role)
  {
    var mem', role' := mem[f := JunkPage()], role[f := Free];
    forall q, v | 0 <= q < |role| && role[q] == Dir && 0 <= v < NPAGES ensures Pte(mem', q, v) == Pte(mem, q, v) {
      assert DirOk(mem, role, q, Pdx(v));
    }
    forall q, i | 0 <= q < |role| && 0 <= i < NPDENTRIES ensures DirOk(mem', role', q, i) {
      assert DirOk(mem, role, q, i);
    }
    forall q, v | 0 <= q < |role| && 0 <= v < USERPAGES ensures UserOk(mem', role', q, v) {
      assert UserOk(mem, role, q, v);
    }
    forall g | 0 <= g < |role| ensures OwnerOk(mem', role', g) {
      assert OwnerOk(mem, role, g);
    }
  }
}
