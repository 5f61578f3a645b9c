/** How many frames a page directory lacks for the tables of a range of pages, and what making them takes. */
module Frames {
  import opened PageTable

  /** 1 if entry i has no table. */
  function Gap(dir: Page, i: nat): nat
    requires i < NPDENTRIES
  {
    if Present(dir[i]) then 0 else 1
  }

  /** The entries i .. j without a table. */
  function Gaps(dir: Page, i: nat, j: nat): nat
    requires j <= NPDENTRIES
  {
    if j <= i then 0 else Gaps(dir, i, j - 1) + Gap(dir, j - 1)
  }

  /** From dir to dir' entries i .. j have got tables where they had none. */
  ghost predicate Opened(dir: Page, dir': Page, i: nat, j: nat) {
    forall k {:trigger dir'[k]} :: 0 <= k < NPDENTRIES ==> (Present(dir'[k]) <==> Present(dir[k]) || i <= k < j)
  }

  lemma {:induction false} GapsGrow(dir: Page, i: nat, j: nat, j': nat)
    requires j <= j' <= NPDENTRIES
    ensures Gaps(dir, i, j) <= Gaps(dir, i, j')
  {
    if j < j' { GapsGrow(dir, i, j, j' - 1); }
  }

  lemma OneGap(dir: Page, i: nat, j: nat)
    requires i < j == i + 1 <= NPDENTRIES
    ensures Gaps(dir, i, j) == Gap(dir, i)
  {
    assert Gaps(dir, i, i) == 0;
  }

  lemma {:induction false} GapsSplit(dir: Page, dir1: Page, i: nat, j: nat, i': nat, j': nat)
    requires i <= i' <= j <= NPDENTRIES && i' <= j' <= NPDENTRIES && Opened(dir, dir1, i, j)
    ensures Gaps(dir1, i', j') == if j' <= j then 0 else Gaps(dir, i, j') - Gaps(dir, i, j)
  {
    if i' < j' { GapsSplit(dir, dir1, i, j, i', j' - 1); }
  }

  lemma OpenedMore(dir: Page, dir1: Page, dir2: Page, i: nat, j: nat, i': nat, j': nat)
    requires i <= i' <= j <= j' <= NPDENTRIES && Opened(dir, dir1, i, j) && Opened(dir1, dir2, i', j')
    ensures Opened(dir, dir2, i, j')
  {
  }

  /** Entries with tables up to c and none from there on. */
  lemma {:induction false} GapsFrom(dir: Page, i: nat, j: nat, c: nat)
    requires i <= c <= j <= NPDENTRIES
    requires forall k :: i <= k < j ==> (Present(dir[k]) <==> k < c)
    ensures Gaps(dir, i, j) == j - c
    decreases j
  {
    if c < j {
      GapsFrom(dir, i, j - 1, c);
    } else {
      NoGaps(dir, i, j);
    }
  }

  lemma {:induction false} NoGaps(dir: Page, i: nat, j: nat)
    requires j <= NPDENTRIES && forall k :: i <= k < j ==> Present(dir[k])
    ensures Gaps(dir, i, j) == 0
  {
    if i < j { NoGaps(dir, i, j - 1); }
  }

  /** One past the directory entry of page v. */
  function Pdx1(v: nat): nat { Pdx(v) + 1 }

  /** One past the last directory entry for the pages lo .. a. */
  function DirTop(lo: nat, a: nat): nat {
    if a <= lo then Pdx(lo) else Pdx(a - 1) + 1
  }

  lemma NextPage(lo: nat, a: nat, a': nat, i: nat, j: nat, i': nat, j': nat)
    requires lo <= a < a' == a + 1 <= NPAGES && i == Pdx(lo) && j == DirTop(lo, a) && i' == Pdx(a) && j' == Pdx1(a)
    ensures i <= i' <= j <= j' == DirTop(lo, a') <= NPDENTRIES
  {
  }

  lemma TopGrows(lo: nat, a: nat, b: nat)
    requires lo <= a <= b <= NPAGES && lo < NPAGES
    ensures Pdx(lo) <= DirTop(lo, a) <= DirTop(lo, b) <= NPDENTRIES
  {
  }

  // ---------------------------------------------------------------- frames for pages

  /** The frames that mapping page v takes: one for the page, and one for its table if that is missing. */
  function PageCost(dir: Page, v: nat): nat
    requires v < NPAGES
  {
    1 + Gap(dir, Pdx(v))
  }

  /** The frames that mapping pages lo .. a takes. */
  function PagesCost(dir: Page, lo: nat, a: nat): nat
    requires lo <= a <= NPAGES && lo < NPAGES
  {
    TopGrows(lo, a, a);
    a - lo + Gaps(dir, Pdx(lo), DirTop(lo, a))
  }

  lemma CostGrows(dir: Page, lo: nat, a: nat, b: nat)
    requires lo <= a <= b <= NPAGES && lo < NPAGES
    ensures PagesCost(dir, lo, a) <= PagesCost(dir, lo, b)
  {
    TopGrows(lo, a, b);
    GapsGrow(dir, Pdx(lo), DirTop(lo, a), DirTop(lo, b));
  }

  /** The pages lo .. a have taken their tables in dir1. */
  lemma CostNext(dir: Page, dir1: Page, lo: nat, a: nat, a': nat)
    requires lo <= a < a' == a + 1 <= NPAGES && Opened(dir, dir1, Pdx(lo), DirTop(lo, a))
    ensures PagesCost(dir, lo, a') == PagesCost(dir, lo, a) + PageCost(dir1, a)
  {
    var i, j, i', j' := Pdx(lo), DirTop(lo, a), Pdx(a), Pdx1(a);
    NextPage(lo, a, a', i, j, i', j');
    GapsSplit(dir, dir1, i, j, i', j');
    OneGap(dir1, i', j');
  }

  lemma OpenedNext(dir: Page, dir1: Page, dir2: Page, lo: nat, a: nat, a': nat)
    requires lo <= a < a' == a + 1 <= NPAGES && Opened(dir, dir1, Pdx(lo), DirTop(lo, a))
    requires Opened(dir1, dir2, Pdx(a), Pdx1(a))
    ensures Opened(dir, dir2, Pdx(lo), DirTop(lo, a'))
  {
    NextPage(lo, a, a', Pdx(lo), DirTop(lo, a), Pdx(a), Pdx1(a));
    OpenedMore(dir, dir1, dir2, Pdx(lo), DirTop(lo, a), Pdx(a), Pdx1(a));
  }

  /** Pages from 0 on, none of whose tables is there. */
  lemma CostFromNothing(dir: Page, n: nat)
    requires n <= USERPAGES && forall k :: 0 <= k < 512 ==> !Present(dir[k])
    ensures PagesCost(dir, 0, n) == n + (n + NPDENTRIES - 1) / NPDENTRIES
  {
    TopGrows(0, n, n);
    GapsFrom(dir, 0, DirTop(0, n), 0);
  }

  lemma NothingOpened(dir: Page, lo: nat)
    requires lo < NPAGES
    ensures Opened(dir, dir, Pdx(lo), DirTop(lo, lo)) && PagesCost(dir, lo, lo) == 0
  {
  }
}
