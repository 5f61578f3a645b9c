/** Directories as maps from names to inodes: what link, create and unlink do to every lookup, and when names stay
    unique. */
module Names {
  import opened Directory
  import opened LinkCount

  // ---------------------------------------------------------------- lookups

  /** The inode that a name leads to in a directory, 0 if none. */
  function Lookup(es: seq<Dirent>, name: Name): nat {
    if Find(es, name) < |es| then es[Find(es, name)].inum else 0
  }

  /** Live entries have different names. */
  ghost predicate Unique(es: seq<Dirent>) {
    forall i, j :: 0 <= i < j < |es| && es[i].inum != 0 && es[j].inum != 0 ==> es[i].name != es[j].name
  }

  /** Any live entry of that name is the one that is found, if names are unique. */
  lemma FoundAt(es: seq<Dirent>, k: nat)
    requires Unique(es) && k < |es| && es[k].inum != 0
    ensures Find(es, es[k].name) == k
  {
    var j := Find(es, es[k].name);
    assert Matches(es, k, es[k].name);
    assert j <= k && Matches(es, j, es[k].name);
  }

  lemma NotThere(es: seq<Dirent>, name: Name)
    requires forall j :: 0 <= j < |es| ==> !Matches(es, j, name)
    ensures Find(es, name) == |es| && Lookup(es, name) == 0
  {
  }

  /** The first live entry with a name is the one that is found. */
  lemma FoundFirst(es: seq<Dirent>, name: Name, k: nat)
    requires k < |es| && Matches(es, k, name) && forall j :: 0 <= j < k ==> !Matches(es, j, name)
    ensures Find(es, name) == k
  {
  }

  /** An entry added under an absent name is found there, and every other name where it was. */
  lemma AddedLookup(es: seq<Dirent>, de: Dirent, name: Name)
    requires Find(es, de.name) == |es| && de.inum != 0
    ensures Lookup(AddEntry(es, de), name) == if name == de.name then de.inum else Lookup(es, name)
  {
    var fs, s, k := AddEntry(es, de), FreeSlot(es, 0), Find(es, name);
    forall j | 0 <= j < |fs|
      ensures if j == s then fs[j] == de else j < |es| && Matches(fs, j, name) == Matches(es, j, name)
    {
      AddEntryAt(es, de, j);
    }
    if name == de.name {
      FoundFirst(fs, name, s);
    } else if k < |es| {
      FoundFirst(fs, name, k);
    } else {
      NotThere(fs, name);
    }
  }

  lemma AddedUnique(es: seq<Dirent>, de: Dirent)
    requires Unique(es) && Find(es, de.name) == |es|
    ensures Unique(AddEntry(es, de))
  {
    var fs, s := AddEntry(es, de), FreeSlot(es, 0);
    forall j | 0 <= j < |fs|
      ensures if j == s then fs[j] == de else j < |es| && fs[j] == es[j] && !Matches(es, j, de.name)
    {
      AddEntryAt(es, de, j);
    }
  }

  /** Without the entry that a name leads to, the name leads to the next entry of that name, and so nowhere exactly if
      there is none; every other name leads where it did. */
  lemma RemovedLookup(es: seq<Dirent>, k: nat, name: Name)
    requires k < |es| && es[k].inum != 0 && Find(es, es[k].name) == k
    ensures name != es[k].name ==> Lookup(es[k := Dirent(0, [])], name) == Lookup(es, name)
    ensures Lookup(es[k := Dirent(0, [])], es[k].name) == 0 <==>
      forall j :: 0 <= j < |es| && j != k ==> !Matches(es, j, es[k].name)
  {
    var fs := es[k := Dirent(0, [])];
    forall j | 0 <= j < |es|
      ensures Matches(fs, j, name) == (j != k && Matches(es, j, name))
      ensures Matches(fs, j, es[k].name) == (j != k && Matches(es, j, es[k].name))
    {
    }
    if name != es[k].name {
      if Find(es, name) < |es| { FoundFirst(fs, name, Find(es, name)); } else { NotThere(fs, name); }
    }
    if forall j :: 0 <= j < |es| && j != k ==> !Matches(es, j, es[k].name) {
      NotThere(fs, es[k].name);
    } else {
      var j :| 0 <= j < |es| && j != k && Matches(es, j, es[k].name);
      assert Matches(fs, j, es[k].name);
    }
  }

  // ---------------------------------------------------------------- the operations

  /** link adds the name, and changes no other lookup anywhere. */
  lemma LinkLookup(v: Tree, i: nat, d: nat, name: Name, e: nat, n: Name)
    requires 0 < i < |v| && d < |v| && i != d && e < |v| && Find(v[d].entries, name) == |v[d].entries|
    ensures Lookup(Link(v, i, d, name)[e].entries, n) == if e == d && n == name then i else Lookup(v[e].entries, n)
  {
    AddedLookup(v[d].entries, Dirent(i, name), n);
  }

  /** create adds the name; a new directory has its dots and nothing else. */
  lemma CreateLookup(v: Tree, d: nat, name: Name, c: nat, kind: Kind, e: nat, n: Name)
    requires 0 < c < |v| && d < |v| && c != d && e < |v| && Find(v[d].entries, name) == |v[d].entries|
    ensures Lookup(Create(v, d, name, c, kind)[e].entries, n) ==
      if e == d && n == name then c
      else if e == c then (if kind == Dir && n == DOT then c else if kind == Dir && n == DOTDOT then d else 0)
      else Lookup(v[e].entries, n)
  {
    AddedLookup(v[d].entries, Dirent(c, name), n);
    var dots := [Dirent(c, DOT), Dirent(d, DOTDOT)];
    if kind == Dir && n == DOT {
      FoundFirst(dots, n, 0);
    } else if kind == Dir && n == DOTDOT {
      DotsDiffer(dots, n, d);
    } else if kind == Dir {
      NotThere(dots, n);
    }
  }

  lemma DotsDiffer(dots: seq<Dirent>, n: Name, d: nat)
    requires |dots| == 2 && dots[0].name == DOT && dots[1].name == DOTDOT == n && dots[1].inum == d
    ensures Lookup(dots, n) == d
  {
    if d != 0 { FoundFirst(dots, n, 1); } else { NotThere(dots, n); }
  }

  /** unlink takes the name away, if it was the directory's only one of that name, and changes no other lookup. */
  lemma UnlinkLookup(v: Tree, d: nat, name: Name, e: nat, n: Name)
    requires Inv(v) && d < |v| && v[d].Live() && Unlinkable(v, d, name) && e < |v|
    ensures |Unlink(v, d, name)| == |v|
    ensures !(e == d && n == name) ==> Lookup(Unlink(v, d, name)[e].entries, n) == Lookup(v[e].entries, n)
    ensures Lookup(Unlink(v, d, name)[d].entries, name) == 0 <==>
      forall j :: 0 <= j < |v[d].entries| && j != Find(v[d].entries, name) ==> !Matches(v[d].entries, j, name)
  {
    var k := Find(v[d].entries, name);
    FoundPastDots(v, d, name);
    assert ChildAt(v, d, k, v[d].entries[k].inum);
    RemovedLookup(v[d].entries, k, n);
    RemovedLookup(v[d].entries, k, name);
  }

  // ---------------------------------------------------------------- unique names

  ghost predicate AllUnique(v: Tree) {
    forall d {:trigger v[d]} :: 0 <= d < |v| && v[d].kind == Dir ==> Unique(v[d].entries)
  }

  lemma StepUnique(v: Tree, op: Op)
    requires Inv(v) && AllUnique(v) && Allowed(v, op)
    ensures |Apply(v, op)| == |v| && AllUnique(Apply(v, op))
  {
    match op {
      case DoLink(i, d, name) =>
        if Find(v[d].entries, name) == |v[d].entries| { AddedUnique(v[d].entries, Dirent(i, name)); }
      case DoUnlink(d, name) =>
        if Unlinkable(v, d, name) { RemovedUnique(v[d].entries, Find(v[d].entries, name)); }
      case DoCreate(d, name, c, kind) =>
        if Find(v[d].entries, name) == |v[d].entries| { AddedUnique(v[d].entries, Dirent(c, name)); }
      case DoReclaim(_) =>
    }
  }

  lemma RemovedUnique(es: seq<Dirent>, k: nat)
    requires Unique(es) && k < |es|
    ensures Unique(es[k := Dirent(0, [])])
  {
  }

  /** In every run from a tree in order, names stay unique if they were. */
  lemma {:induction false} NamesStayUnique(v: Tree, ops: seq<Op>)
    requires Inv(v) && AllUnique(v) && AllAllowed(v, ops)
    ensures Inv(Run(v, ops)) && AllUnique(Run(v, ops))
    decreases |ops|
  {
    if ops != [] {
      StepUnique(v, ops[0]);
      assert AllAllowed(v, [ops[0]]) by { assert [ops[0]][1..] == []; }
      RunsKeepCounts(v, [ops[0]]);
      assert Run(v, [ops[0]]) == Apply(v, ops[0]) by { assert [ops[0]][1..] == []; }
      NamesStayUnique(Apply(v, ops[0]), ops[1..]);
    }
  }

  /** The names that mkfs is given differ, from each other and from the dots. */
  ghost predicate Differ(names: seq<Name>) {
    && (forall i, j :: 0 <= i < j < |names| ==> names[i] != names[j])
    && forall k :: 0 <= k < |names| ==> names[k] != DOT && names[k] != DOTDOT
  }

  /** mkfs does not compare names: those in the tree it makes are unique if and only if those it is given
      differ. */
  lemma FormattedUnique(names: seq<Name>, blanks: nat, free: nat)
    requires |names| + 2 + free <= 0x1_0000 && |names| < 0xFFFE
    ensures AllUnique(Formatted(names, blanks, free)) <==> Differ(names)
  {
    var v, es := Formatted(names, blanks, free), RootEntries(names, blanks);
    assert v[1].entries == es && forall d :: 0 <= d < |v| && v[d].kind == Dir ==> d == 1;
    RootUnique(names, blanks, es);
  }

  lemma RootUnique(names: seq<Name>, blanks: nat, es: seq<Dirent>)
    requires |names| < 0xFFFE && es == RootEntries(names, blanks)
    ensures Unique(es) <==> Differ(names)
  {
    forall k | 0 <= k < |es| ensures es[k] ==
      if k < 2 then (if k == 0 then Dirent(1, DOT) else Dirent(1, DOTDOT))
      else if k < |names| + 2 then Dirent(k, names[k - 2]) else Dirent(0, [])
    {
    }
    if Unique(es) {
      forall i, j | 0 <= i < j < |names| ensures names[i] != names[j] {
        assert es[i + 2].name == names[i] && es[j + 2].name == names[j];
      }
      forall k | 0 <= k < |names| ensures names[k] != DOT && names[k] != DOTDOT {
        assert es[0].name == DOT && es[1].name == DOTDOT && es[k + 2].name == names[k];
      }
    }
    if Differ(names) {
      forall i, j | 0 <= i < j < |es| && es[i].inum != 0 && es[j].inum != 0 ensures es[i].name != es[j].name {
        assert DOT != DOTDOT;
      }
    }
  }

  /** Where names are unique, a name is gone once it is unlinked. */
  lemma UnlinkedIsGone(v: Tree, d: nat, name: Name)
    requires Inv(v) && AllUnique(v) && d < |v| && v[d].Live() && Unlinkable(v, d, name)
    ensures |Unlink(v, d, name)| == |v|
    ensures Find(Unlink(v, d, name)[d].entries, name) == |Unlink(v, d, name)[d].entries|
  {
    var es, w := v[d].entries, Unlink(v, d, name);
    var k := Find(es, name);
    FoundPastDots(v, d, name);
    assert ChildAt(v, d, k, es[k].inum);
    forall j | 0 <= j < |w[d].entries| ensures !Matches(w[d].entries, j, name) {
      if Matches(w[d].entries, j, name) { FoundAt(es, j); }
    }
    NotThere(w[d].entries, name);
  }
}
