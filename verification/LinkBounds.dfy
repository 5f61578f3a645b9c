/** How many links an inode can have: a directory no more than its own entries allow, any other inode no more than the
    data blocks of the volume have room for. So link counts wrap on large volumes only, and only those of files. */
module LinkBounds {
  import opened Space
  import opened Directory
  import opened LinkCount

  // ---------------------------------------------------------------- links to a directory

  /** The linked directories from number n on whose ".." is d. */
  ghost function Subdirs(v: Tree, d: nat, n: nat): set<nat> {
    set e | n <= e < |v| && v[e].Live() && Parent(v, e) == d
  }

  /** A directory from number n on has an entry past the dots that names d. */
  ghost predicate NamedFrom(v: Tree, d: nat, n: nat) {
    exists e: nat, k: nat :: n <= e && ChildAt(v, e, k, d)
  }

  ghost predicate NamedPast(v: Tree, e: nat, d: nat, n: nat) {
    exists k: nat :: n <= k && ChildAt(v, e, k, d)
  }

  /** A directory has at most one name past the dots of another. */
  lemma {:induction false} NamedOnce(v: Tree, e: nat, d: nat, n: nat)
    requires Inv(v) && 0 < d < |v| && v[d].kind == Dir && e < |v| && v[e].Live() && 2 <= n <= |v[e].entries|
    ensures NamedIn(v[e].entries, d, n) <= if NamedPast(v, e, d, n) then 1 else 0
    decreases |v[e].entries| - n
  {
    if n < |v[e].entries| {
      NamedOnce(v, e, d, n + 1);
      if v[e].entries[n].inum == d {
        assert ChildAt(v, e, n, d);
      }
    }
  }

  /** The dots of a directory: only ".." counts. */
  lemma {:induction false} DotsCount(v: Tree, e: nat, i: nat)
    requires DirsRight(v) && e < |v| && v[e].Live()
    ensures |v[e].entries| >= 2
    ensures LinksFrom(v[e], i) == (if Parent(v, e) == i then 1 else 0) + NamedIn(v[e].entries, i, 2)
  {
    assert DotsFirst(v, e);
    assert NamedIn(v[e].entries, i, 1) == (if Parent(v, e) == i then 1 else 0) + NamedIn(v[e].entries, i, 2);
  }

  lemma {:induction false} DirLinks(v: Tree, d: nat, n: nat)
    requires Inv(v) && 0 < d < |v| && v[d].kind == Dir && n <= |v|
    ensures LinksTo(v, d, n) <= |Subdirs(v, d, n)| + if NamedFrom(v, d, n) then 1 else 0
    decreases |v| - n
  {
    if n < |v| {
      DirLinks(v, d, n + 1);
      if v[n].Live() {
        DotsCount(v, n, d);
        NamedOnce(v, n, d, 2);
        var s := if Parent(v, n) == d then {n} else {};
        assert Subdirs(v, d, n) == s + Subdirs(v, d, n + 1);
      } else {
        assert Subdirs(v, d, n) == Subdirs(v, d, n + 1);
      }
    }
  }

  /** The inodes that entries from number n on name. */
  ghost function Inums(es: seq<Dirent>, n: nat): (r: set<nat>)
    requires n <= |es|
    ensures |r| <= |es| - n && forall k :: n <= k < |es| ==> es[k].inum as nat in r
    decreases |es| - n
  {
    if n == |es| then {} else {es[n].inum as nat} + Inums(es, n + 1)
  }

  /** Each subdirectory takes an entry. */
  lemma {:induction false} SubdirsHaveEntries(v: Tree, d: nat)
    requires Inv(v) && 0 < d < |v| && v[d].Live()
    ensures |v[d].entries| >= 2
    ensures |Subdirs(v, d, 0)| <= |v[d].entries| - if d == ROOTINO then 1 else 2
  {
    assert DotsFirst(v, d);
    var subs, named := Subdirs(v, d, 0), Inums(v[d].entries, 2);
    forall e | e in subs && e != ROOTINO ensures e in named {
      assert InParent(v, e);
      var k: nat :| ChildAt(v, d, k, e);
    }
    if d == ROOTINO {
      Card(subs, named, {ROOTINO});
    } else {
      Card(subs, named, {});
    }
  }

  /** A directory has fewer links than entries. */
  lemma {:induction false} DirLinksBound(v: Tree, d: nat)
    requires Inv(v) && 0 < d < |v| && v[d].Live()
    ensures v[d].nlink < |v[d].entries|
  {
    DirLinks(v, d, 0);
    SubdirsHaveEntries(v, d);
  }

  // ---------------------------------------------------------------- links to a file

  /** The entries past the dots in the linked directories from number n on. */
  function Slots(v: Tree, n: nat): nat
    requires n <= |v|
    decreases |v| - n
  {
    if n == |v| then 0
    else (if v[n].Live() && |v[n].entries| >= 2 then |v[n].entries| - 2 else 0) + Slots(v, n + 1)
  }

  lemma {:induction false} NamedInBound(es: seq<Dirent>, i: nat, n: nat)
    requires n <= |es|
    ensures NamedIn(es, i, n) <= |es| - n
    decreases |es| - n
  {
    if n < |es| { NamedInBound(es, i, n + 1); }
  }

  /** An inode that is not a directory has no more links than there are entries past the dots. */
  lemma {:induction false} FileLinks(v: Tree, i: nat, n: nat)
    requires DirsRight(v) && i < |v| && v[i].kind != Dir && n <= |v|
    ensures LinksTo(v, i, n) <= Slots(v, n)
    decreases |v| - n
  {
    if n < |v| {
      FileLinks(v, i, n + 1);
      if v[n].Live() {
        DotsCount(v, n, i);
        assert DotsFirst(v, n);
        NamedInBound(v[n].entries, i, 2);
      }
    }
  }

  // ---------------------------------------------------------------- a file with MAXLINKS links

  const PERDIR: nat := 4096            // names for it in each directory
  const MANY: nat := 11                // inodes: the root, eight directories from 2 on, and the file
  const FILE: nat := 10

  function LinkName(n: nat): Name
    requires n < 62500
  {
    [76, 1 + n / 250, 1 + n % 250]
  }

  lemma NamesDiffer(m: nat, n: nat)
    requires m < 62500 && n < 62500 && LinkName(m) == LinkName(n)
    ensures m == n
  {
    assert LinkName(m)[1] == LinkName(n)[1] && LinkName(m)[2] == LinkName(n)[2];
  }

  /** One of the dots or LinkName of a number below n. */
  ghost predicate OldName(name: Name, n: nat)
    requires n < 62500
  {
    name == DOT || name == DOTDOT || exists m :: 0 <= m < n && name == LinkName(m)
  }

  /** A linked directory with at most n entries past the dots, of such names. */
  ghost predicate Holding(x: Node, n: nat)
    requires n < 62500
  {
    && x.Live() && |x.entries| <= n + 2
    && forall k :: 0 <= k < |x.entries| && x.entries[k].inum != 0 ==> OldName(x.entries[k].name, n)
  }

  /** The next name is not there, and adding it is one entry more. */
  lemma HoldsMore(x: Node, n: nat, n': nat, c: nat, links: int)
    requires n' == n + 1 < 62500 && Holding(x, n) && c < 0x1_0000 && links > 0
    ensures Find(x.entries, LinkName(n)) == |x.entries|
    ensures Holding(Node(Dir, links, AddEntry(x.entries, Dirent(c, LinkName(n)))), n')
  {
    var es, name := x.entries, LinkName(n);
    forall k | 0 <= k < |es| ensures !Matches(es, k, name) {
      if es[k].inum != 0 && es[k].name == name {
        assert OldName(name, n);
        var m :| 0 <= m < n && name == LinkName(m);
        NamesDiffer(m, n);
      }
    }
    var es' := AddEntry(es, Dirent(c, name));
    forall k | 0 <= k < |es'| && es'[k].inum != 0 ensures OldName(es'[k].name, n') {
      AddEntryAt(es, Dirent(c, name), k);
      if k < |es| && k != FreeSlot(es, 0) { assert OldName(es[k].name, n); }
    }
  }

  /** The directories 2 .. j have been made in the root. */
  ghost predicate DirsMade(v: Tree, j: nat)
    requires 2 <= j <= FILE
  {
    && |v| == MANY && Holding(v[ROOTINO], j) && (forall e :: 2 <= e < j ==> Holding(v[e], 0))
    && forall e :: j <= e < MANY ==> v[e].kind == Free
  }

  /** The tree v comes about from an empty one. */
  ghost predicate ComesAbout(ops: seq<Op>, v: Tree) {
    AllAllowed(Formatted([], 0, 9), ops) && v == LinkCount.Run(Formatted([], 0, 9), ops)
  }

  lemma {:induction false} OneMore(v: Tree, ops: seq<Op>, op: Op)
    requires AllAllowed(v, ops) && Allowed(LinkCount.Run(v, ops), op)
    ensures AllAllowed(v, ops + [op]) && LinkCount.Run(v, ops + [op]) == Apply(LinkCount.Run(v, ops), op)
    decreases |ops|
  {
    if ops == [] {
      assert [op][1..] == [] && AllAllowed(Apply(v, op), []);
      assert ops + [op] == [op];
    } else {
      assert (ops + [op])[1..] == ops[1..] + [op];
      OneMore(Apply(v, ops[0]), ops[1..], op);
    }
  }

  lemma {:induction false} MakeDirs(j: nat) returns (ops: seq<Op>, v: Tree)
    requires 2 <= j <= FILE
    ensures ComesAbout(ops, v) && DirsMade(v, j)
  {
    if j == 2 {
      ops, v := [], Formatted([], 0, 9);
      assert v[1].entries == [Dirent(1, DOT), Dirent(1, DOTDOT)];
    } else {
      var ops', u := MakeDirs(j - 1);
      ops := ops' + [DoCreate(ROOTINO, LinkName(j - 1), j - 1, Dir)];
      HoldsMore(u[ROOTINO], j - 1, j, j - 1, u[ROOTINO].nlink + 1);
      OneMore(Formatted([], 0, 9), ops', DoCreate(ROOTINO, LinkName(j - 1), j - 1, Dir));
      v := Create(u, ROOTINO, LinkName(j - 1), j - 1, Dir);
    }
  }

  /** How many of the first k links of the file are in directory e. */
  function InDir(k: nat, e: nat): nat
    requires e >= 2
  {
    var before := (e - 2) * PERDIR;
    if k <= before then 0 else if k <= before + PERDIR then k - before else PERDIR
  }

  /** The file has been linked k times besides its name in the root. */
  ghost predicate LinkedTimes(v: Tree, k: nat) {
    && |v| == MANY && v[FILE].kind == Other && v[FILE].nlink == k + 1 && Holding(v[ROOTINO], MANY)
    && forall e :: 2 <= e < FILE ==> Holding(v[e], InDir(k, e))
  }

  lemma MakeFile() returns (ops: seq<Op>, v: Tree)
    ensures ComesAbout(ops, v) && LinkedTimes(v, 0)
  {
    var ops', u := MakeDirs(FILE);
    var op := DoCreate(ROOTINO, LinkName(FILE), FILE, Other);
    HoldsMore(u[ROOTINO], FILE, MANY, FILE, u[ROOTINO].nlink);
    OneMore(Formatted([], 0, 9), ops', op);
    ops, v := ops' + [op], Create(u, ROOTINO, LinkName(FILE), FILE, Other);
  }

  lemma NextDir(k: nat, k': nat, d: nat)
    requires k' == k + 1 && d == 2 + k / PERDIR
    ensures InDir(k, d) == k % PERDIR && InDir(k', d) == k % PERDIR + 1
    ensures forall e :: 2 <= e && e != d ==> InDir(k', e) == InDir(k, e)
  {
  }

  lemma {:induction false} MakeLinks(k: nat) returns (ops: seq<Op>, v: Tree)
    requires k <= 8 * PERDIR
    ensures ComesAbout(ops, v) && LinkedTimes(v, k)
  {
    if k == 0 {
      ops, v := MakeFile();
    } else {
      var ops', u := MakeLinks(k - 1);
      var d, n := 2 + (k - 1) / PERDIR, (k - 1) % PERDIR;
      NextDir(k - 1, k, d);
      HoldsMore(u[d], n, n + 1, FILE, u[d].nlink);
      OneMore(Formatted([], 0, 9), ops', DoLink(FILE, d, LinkName(n)));
      ops, v := ops' + [DoLink(FILE, d, LinkName(n))], Link(u, FILE, d, LinkName(n));
      assert v[d] == Node(Dir, u[d].nlink, AddEntry(u[d].entries, Dirent(FILE, LinkName(n))));
    }
  }

  lemma DirsHold(v: Tree, k: nat, e: nat)
    requires LinkedTimes(v, k) && v[0].kind == Free && e < |v| && v[e].kind == Dir
    ensures v[e].Live() && |v[e].entries| <= PERDIR + 2
  {
    if 2 <= e < FILE { assert Holding(v[e], InDir(k, e)); }
  }

  lemma LinkedInOrder(k: nat) returns (ops: seq<Op>, v: Tree)
    requires k <= 8 * PERDIR
    ensures ComesAbout(ops, v) && Inv(v) && |v| == MANY && v[FILE].kind == Other && v[FILE].nlink == k + 1
    ensures forall e :: 0 <= e < |v| && v[e].kind == Dir ==> |v[e].entries| <= PERDIR + 2
  {
    ops, v := MakeLinks(k);
    FormattedInOrder([], 0, 9);
    RunsKeepCounts(Formatted([], 0, 9), ops);
    forall e | 0 <= e < |v| && v[e].kind == Dir ensures |v[e].entries| <= PERDIR + 2 {
      DirsHold(v, k, e);
    }
  }

  /** A file with as many links as a short can count comes about, in directories that fit in a file. */
  lemma ManyLinks() returns (ops: seq<Op>, v: Tree)
    ensures AllAllowed(Formatted([], 0, 9), ops) && v == LinkCount.Run(Formatted([], 0, 9), ops) && Inv(v)
    ensures |v| == MANY && v[FILE].kind == Other && v[FILE].nlink == MAXLINKS
    ensures forall e :: 0 <= e < |v| && v[e].kind == Dir ==> |v[e].entries| <= PERDIR + 2
  {
    var k: nat :| k + 1 == MAXLINKS;
    ops, v := LinkedInOrder(k);
  }
}
