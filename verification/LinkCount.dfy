/** The directory tree as values, and why link counts stay right. A node is what an inode means: its type, its link
    count and, for a directory, its entries. */
module LinkCount {
  import opened Directory

  const ROOTINO: nat := 1

  datatype Kind = Free | Dir | Other

  datatype Node = Node(kind: Kind, nlink: int, entries: seq<Dirent>) {
    /** A directory that is still linked. */
    predicate Live() { kind == Dir && nlink > 0 }
  }

  type Tree = v: seq<Node> | |v| <= 0x1_0000 witness []

  const MAXLINKS: nat := 0x7FFF        // the largest link count that a short holds

  const DOT: Name := [46]
  const DOTDOT: Name := [46, 46]

  // ---------------------------------------------------------------- in-degree

  /** How many of the entries es[n..] name inode i under a name other than ".". */
  function NamedIn(es: seq<Dirent>, i: nat, n: nat): nat
    requires n <= |es|
    decreases |es| - n
  {
    if n == |es| then 0 else
    (if es[n].inum == i && es[n].name != DOT then 1 else 0) + NamedIn(es, i, n + 1)
  }

  /** The entries of a node that count as links to inode i: those of a directory that is still linked. */
  function LinksFrom(x: Node, i: nat): nat {
    if x.Live() then NamedIn(x.entries, i, 0) else 0
  }

  /** The links to inode i from the nodes v[n..]. */
  function LinksTo(v: Tree, i: nat, n: nat): nat
    requires n <= |v|
    decreases |v| - n
  {
    if n == |v| then 0 else LinksFrom(v[n], i) + LinksTo(v, i, n + 1)
  }

  /** Replacing node d changes the links to i by the difference between the two nodes. */
  lemma {:induction false} LinksToUpdate(v: Tree, d: nat, x: Node, i: nat, n: nat)
    requires d < |v| && n <= |v|
    ensures LinksTo(v[d := x], i, n) == LinksTo(v, i, n) + if n <= d then LinksFrom(x, i) - LinksFrom(v[d], i) else 0
    decreases |v| - n
  {
    if n < |v| {
      LinksToUpdate(v, d, x, i, n + 1);
    }
  }

  lemma {:induction false} NamedInUpdate(es: seq<Dirent>, k: nat, de: Dirent, i: nat, n: nat)
    requires k < |es| && n <= |es|
    ensures NamedIn(es[k := de], i, n) == NamedIn(es, i, n) +
              if n <= k then (if de.inum == i && de.name != DOT then 1 else 0)
                             - (if es[k].inum == i && es[k].name != DOT then 1 else 0)
              else 0
    decreases |es| - n
  {
    if n < |es| {
      NamedInUpdate(es, k, de, i, n + 1);
    }
  }

  lemma {:induction false} NamedInAppend(es: seq<Dirent>, de: Dirent, i: nat, n: nat)
    requires n <= |es|
    ensures NamedIn(es + [de], i, n) == NamedIn(es, i, n) + if de.inum == i && de.name != DOT then 1 else 0
    decreases |es| - n
  {
    if n < |es| {
      NamedInAppend(es, de, i, n + 1);
    } else {
      assert NamedIn(es + [de], i, n + 1) == 0;
    }
  }

  lemma {:induction false} NamedInZero(es: seq<Dirent>, i: nat, n: nat)
    requires n <= |es| && forall k :: n <= k < |es| ==> es[k].inum != i
    ensures NamedIn(es, i, n) == 0
    decreases |es| - n
  {
    if n < |es| {
      NamedInZero(es, i, n + 1);
    }
  }

  lemma {:induction false} NamedInPositive(es: seq<Dirent>, i: nat, n: nat, k: nat)
    requires n <= k < |es| && es[k].inum == i && es[k].name != DOT
    ensures NamedIn(es, i, n) >= 1
    decreases |es| - n
  {
    if n < k {
      NamedInPositive(es, i, n + 1, k);
    }
  }

  // ---------------------------------------------------------------- the invariant

  /** "." and ".." are the first two entries and no other live entry has these names. */
  predicate DotsFirst(v: Tree, d: nat)
    requires d < |v|
  {
    var es := v[d].entries;
    && |es| >= 2 && es[0] == Dirent(d, DOT) && es[1].name == DOTDOT && es[1].inum != 0
    && forall k :: 2 <= k < |es| && es[k].inum != 0 ==> es[k].name != DOT && es[k].name != DOTDOT
  }

  function Parent(v: Tree, d: nat): nat
    requires d < |v|
  {
    if |v[d].entries| >= 2 then v[d].entries[1].inum else 0
  }

  /** Slot k of directory d, not one of the dots, names inode c. */
  predicate ChildAt(v: Tree, d: nat, k: nat, c: nat) {
    d < |v| && v[d].Live() && 2 <= k < |v[d].entries| && v[d].entries[k].inum == c
  }

  /** Link counts are in-degrees. */
  ghost predicate CountsRight(v: Tree) {
    forall i :: 1 <= i < |v| ==> v[i].nlink == LinksTo(v, i, 0)
  }

  ghost predicate DirsRight(v: Tree) {
    && ROOTINO < |v| && v[0].kind == Free
    && (forall d {:trigger DotsFirst(v, d)} :: 0 <= d < |v| && v[d].Live() ==>
          DotsFirst(v, d) && Parent(v, d) < |v| && v[Parent(v, d)].Live())
    && v[ROOTINO].Live() && Parent(v, ROOTINO) == ROOTINO
  }

  /** Every live entry names another, allocated inode; if that is a directory, it is a linked one other than the root,
      and its ".." leads back. */
  ghost predicate ChildrenRight(v: Tree)
    requires DirsRight(v)
  {
    forall d: nat, k: nat, c: nat :: ChildAt(v, d, k, c) && c != 0 ==>
      && c < |v| && v[c].kind != Free && c != d
      && (v[c].kind == Dir ==> v[c].Live() && Parent(v, c) == d && c != ROOTINO)
  }

  /** A directory is named by one entry. */
  ghost predicate OneName(v: Tree) {
    forall d: nat, k: nat, e: nat, l: nat, c: nat ::
      ChildAt(v, d, k, c) && ChildAt(v, e, l, c) && 0 < c < |v| && v[c].kind == Dir ==> d == e && k == l
  }

  ghost predicate InParent(v: Tree, c: nat) {
    c < |v| && exists k: nat :: ChildAt(v, Parent(v, c), k, c)
  }

  /** Every linked directory but the root is named by an entry of its parent. */
  ghost predicate NamedByParent(v: Tree) {
    forall c: nat {:trigger InParent(v, c)} :: c < |v| && v[c].Live() && c != ROOTINO ==> InParent(v, c)
  }

  /** isdirempty: every entry past the dots is empty. */
  ghost predicate Empty(x: Node) {
    forall k :: 2 <= k < |x.entries| ==> x.entries[k].inum == 0
  }

  /** What is left of a directory that has been unlinked while somebody still uses it: its dots. */
  ghost predicate Leftover(v: Tree, d: nat) {
    d < |v| && DotsFirst(v, d) && Parent(v, d) < |v| && Empty(v[d])
  }

  ghost predicate LeftoversEmpty(v: Tree) {
    forall d {:trigger Leftover(v, d)} :: 0 <= d < |v| && v[d].kind == Dir && !v[d].Live() ==> Leftover(v, d)
  }

  ghost predicate Inv(v: Tree) {
    CountsRight(v) && DirsRight(v) && ChildrenRight(v) && OneName(v) && NamedByParent(v) && LeftoversEmpty(v)
  }

  /** Directories that are unlinked in w were so in v, with the same entries, except for c. */
  lemma LeftoversKept(v: Tree, w: Tree, c: nat)
    requires LeftoversEmpty(v) && |w| == |v|
    requires forall e :: 0 <= e < |v| && e != c && w[e].kind == Dir && !w[e].Live() ==>
      v[e].kind == Dir && !v[e].Live() && w[e].entries == v[e].entries
    requires c < |v| && w[c].kind == Dir && !w[c].Live() ==> Leftover(w, c)
    ensures LeftoversEmpty(w)
  {
    forall e | 0 <= e < |w| && w[e].kind == Dir && !w[e].Live() ensures Leftover(w, e) {
      if e != c { assert Leftover(v, e); }
    }
  }

  // ---------------------------------------------------------------- counting lemmas

  lemma {:induction false} AddEntryCount(es: seq<Dirent>, de: Dirent, i: nat)
    requires i != 0
    ensures NamedIn(AddEntry(es, de), i, 0) == NamedIn(es, i, 0) + if de.inum == i && de.name != DOT then 1 else 0
  {
    var k := FreeSlot(es, 0);
    if k < |es| {
      NamedInUpdate(es, k, de, i, 0);
    } else {
      NamedInAppend(es, de, i, 0);
    }
  }

  /** Entry l of directory e names inode c, and not as ".". */
  predicate Names(v: Tree, e: nat, l: nat, c: nat) {
    e < |v| && v[e].Live() && l < |v[e].entries| && v[e].entries[l].inum == c && v[e].entries[l].name != DOT
  }

  /** An inode that no entry of a linked directory names has no links. */
  lemma {:induction false} NoLinks(v: Tree, i: nat, n: nat)
    requires n <= |v| && forall d: nat, k: nat :: !Names(v, d, k, i)
    ensures LinksTo(v, i, n) == 0
    decreases |v| - n
  {
    if n < |v| {
      NoLinks(v, i, n + 1);
      if v[n].Live() { NotNamed(v, n, i, 0); }
    }
  }

  lemma {:induction false} NotNamed(v: Tree, d: nat, i: nat, n: nat)
    requires d < |v| && v[d].Live() && n <= |v[d].entries| && forall k: nat :: !Names(v, d, k, i)
    ensures NamedIn(v[d].entries, i, n) == 0
    decreases |v[d].entries| - n
  {
    if n < |v[d].entries| {
      assert !Names(v, d, n, i);
      NotNamed(v, d, i, n + 1);
    }
  }

  /** A free inode has no links. */
  lemma {:induction false} FreeHasNoLinks(v: Tree, i: nat)
    requires Inv(v) && 0 < i < |v| && v[i].kind == Free
    ensures LinksTo(v, i, 0) == 0
  {
    forall d: nat, k: nat ensures !Names(v, d, k, i) {
      if d < |v| && v[d].Live() && k < |v[d].entries| {
        assert DotsFirst(v, d);
        if k == 1 {
          assert v[Parent(v, d)].Live();
        } else if k >= 2 {
          assert ChildAt(v, d, k, v[d].entries[k].inum);
        }
      }
    }
    NoLinks(v, i, 0);
  }

  // ---------------------------------------------------------------- link

  /** sys_link on an inode that is not a directory; a name already present leaves the tree as it was. */
  function Link(v: Tree, i: nat, d: nat, name: Name): Tree
    requires i < |v| && d < |v|
  {
    if Find(v[d].entries, name) < |v[d].entries| then v else
    v[i := v[i].(nlink := v[i].nlink + 1)][d := v[d].(entries := AddEntry(v[d].entries, Dirent(i, name)))]
  }

  /** In a linked directory an absent name is not one of the dots, and the first empty slot is past them. */
  lemma {:induction false} FreshName(v: Tree, d: nat, name: Name)
    requires DirsRight(v) && d < |v| && v[d].Live() && Find(v[d].entries, name) == |v[d].entries|
    ensures name != DOT && name != DOTDOT && FreeSlot(v[d].entries, 0) >= 2
  {
    assert DotsFirst(v, d);
    assert !Matches(v[d].entries, 0, name) && !Matches(v[d].entries, 1, name);
  }

  /** Where AddEntry leaves the children of a directory. */
  lemma {:induction false} AddEntryAt(es: seq<Dirent>, de: Dirent, k: nat)
    requires k < |AddEntry(es, de)|
    ensures AddEntry(es, de)[k] == if k == FreeSlot(es, 0) then de else if k < |es| then es[k] else de
    ensures k != FreeSlot(es, 0) ==> k < |es|
  {
  }

  /** From v to w, directory d has a new entry naming c in its first empty slot; besides, no linked directory has gained
      or lost an entry past the dots. */
  ghost predicate ChildAdded(v: Tree, w: Tree, d: nat, c: nat)
    requires d < |v|
  {
    && |w| == |v|
    && forall e: nat, k: nat, x: nat :: x != 0 ==>
         (ChildAt(w, e, k, x) <==> ChildAt(v, e, k, x) || (e == d && k == FreeSlot(v[d].entries, 0) && x == c))
  }

  lemma {:induction false} AddChild(v: Tree, w: Tree, d: nat, c: nat, name: Name)
    requires DirsRight(v) && d < |v| && v[d].Live() && 0 < c < |v| == |w| && w[d].Live()
    requires Find(v[d].entries, name) == |v[d].entries|
    requires w[d].entries == AddEntry(v[d].entries, Dirent(c, name))
    requires forall e :: 0 <= e < |v| && e != d ==>
               (w[e].Live() && v[e].Live() && w[e].entries == v[e].entries)
               || (!v[e].Live() && (!w[e].Live() || |w[e].entries| == 2))
    ensures ChildAdded(v, w, d, c)
    ensures DotsFirst(w, d) && Parent(w, d) == Parent(v, d)
  {
    FreshName(v, d, name);
    assert DotsFirst(v, d);
    var es := v[d].entries;
    var slot := FreeSlot(es, 0);
    forall k | 0 <= k < |w[d].entries|
      ensures w[d].entries[k] == if k == slot then Dirent(c, name) else if k < |es| then es[k] else Dirent(c, name)
    {
      AddEntryAt(es, Dirent(c, name), k);
    }
    forall e: nat, k: nat, x: nat | x != 0
      ensures ChildAt(w, e, k, x) <==> ChildAt(v, e, k, x) || (e == d && k == slot && x == c)
    {
      if e == d && k < |w[d].entries| { AddEntryAt(es, Dirent(c, name), k); }
    }
  }

  /** The linked directories of w are those of v but `gone` (none when that is 0), with the same parents; and besides,
      inodes have changed at most from free to ordinary files. */
  ghost predicate SameDirs(v: Tree, w: Tree, gone: nat) {
    && |w| == |v| > 0 && w[0].kind == v[0].kind
    && forall e :: 0 <= e < |v| ==>
         && (w[e].kind == Dir <==> v[e].kind == Dir) && (w[e].kind == Free ==> v[e].kind == Free)
         && (w[e].Live() <==> v[e].Live() && e != gone)
         && (w[e].Live() && DotsFirst(v, e) ==> DotsFirst(w, e) && Parent(w, e) == Parent(v, e))
  }

  lemma {:induction false} ParentKept(v: Tree, w: Tree, gone: nat, c: nat)
    requires DirsRight(v) && SameDirs(v, w, gone)
    ensures c < |v| && w[c].Live() ==> DotsFirst(v, c) && DotsFirst(w, c) && Parent(w, c) == Parent(v, c)
  {
    if c < |v| && w[c].Live() { assert DotsFirst(v, c); }
  }

  /** No linked directory has `gone` for its parent. */
  ghost predicate Childless(v: Tree, gone: nat) {
    gone != ROOTINO && forall e :: 0 <= e < |v| && v[e].Live() ==> Parent(v, e) != gone
  }

  lemma {:induction false} SameDirsRight(v: Tree, w: Tree, gone: nat)
    requires DirsRight(v) && SameDirs(v, w, gone) && Childless(v, gone)
    ensures DirsRight(w)
  {
    forall e | 0 <= e < |w| && w[e].Live()
      ensures DotsFirst(w, e) && Parent(w, e) < |w| && w[Parent(w, e)].Live()
    {
      ParentKept(v, w, gone, e);
    }
    ParentKept(v, w, gone, ROOTINO);
  }

  /** One more name for an inode that is not a directory keeps the shape of the tree. */
  lemma {:induction false} NewNameKeeps(v: Tree, w: Tree, d: nat, i: nat)
    requires DirsRight(v) && ChildrenRight(v) && OneName(v) && NamedByParent(v)
    requires SameDirs(v, w, 0) && d < |v| && ChildAdded(v, w, d, i) && 0 < i < |v| && w[i].kind == Other
    ensures DirsRight(w) && ChildrenRight(w) && OneName(w) && NamedByParent(w)
  {
    NoZeroParent(v);
    SameDirsRight(v, w, 0);
    forall e: nat, k: nat, c: nat | ChildAt(w, e, k, c) && c != 0
      ensures c < |w| && w[c].kind != Free && c != e
      ensures (w[c].kind == Dir ==> w[c].Live() && Parent(w, c) == e && c != ROOTINO)
    {
      if c != i { ParentKept(v, w, 0, c); }
    }
    forall c: nat | c < |w| && w[c].Live() && c != ROOTINO ensures InParent(w, c) {
      ParentKept(v, w, 0, c);
      assert InParent(v, c);
      var k: nat :| ChildAt(v, Parent(v, c), k, c);
      assert ChildAt(w, Parent(w, c), k, c);
    }
  }

  lemma {:induction false} LinkSameDirs(v: Tree, w: Tree, i: nat, d: nat, name: Name)
    requires DirsRight(v) && i < |v| && v[i].kind == Other && d < |v| && v[d].Live()
    requires Find(v[d].entries, name) == |v[d].entries| && w == Link(v, i, d, name)
    ensures ChildAdded(v, w, d, i) && SameDirs(v, w, 0)
  {
    AddChild(v, w, d, i, name);
  }

  lemma {:induction false} LinkShape(v: Tree, w: Tree, i: nat, d: nat, name: Name)
    requires Inv(v) && i < |v| && v[i].kind == Other && d < |v| && v[d].Live()
    requires Find(v[d].entries, name) == |v[d].entries| && w == Link(v, i, d, name)
    ensures DirsRight(w) && ChildrenRight(w) && OneName(w) && NamedByParent(w) && LeftoversEmpty(w)
  {
    LinkSameDirs(v, w, i, d, name);
    NewNameKeeps(v, w, d, i);
    LeftoversKept(v, w, i);
  }

  /** Linking keeps the invariant. */
  lemma {:induction false} LinkKeeps(v: Tree, i: nat, d: nat, name: Name)
    requires Inv(v) && i < |v| && v[i].kind == Other && d < |v| && v[d].Live()
    ensures Inv(Link(v, i, d, name))
  {
    if Find(v[d].entries, name) == |v[d].entries| {
      LinkShape(v, Link(v, i, d, name), i, d, name);
      LinkCounts(v, i, d, name);
    }
  }

  lemma {:induction false} LinkCounts(v: Tree, i: nat, d: nat, name: Name)
    requires Inv(v) && 0 < i < |v| && v[i].kind == Other && d < |v| && v[d].Live()
    requires Find(v[d].entries, name) == |v[d].entries|
    ensures CountsRight(Link(v, i, d, name))
  {
    var x := v[i].(nlink := v[i].nlink + 1);
    var y := v[d].(entries := AddEntry(v[d].entries, Dirent(i, name)));
    FreshName(v, d, name);
    forall j | 1 <= j < |v| ensures Link(v, i, d, name)[j].nlink == LinksTo(Link(v, i, d, name), j, 0) {
      LinksToUpdate(v, i, x, j, 0);
      LinksToUpdate(v[i := x], d, y, j, 0);
      AddEntryCount(v[d].entries, Dirent(i, name), j);
    }
  }

  // ---------------------------------------------------------------- unlink

  /** sys_unlink refuses the dots, an absent name and a directory that is not empty. */
  ghost predicate Unlinkable(v: Tree, d: nat, name: Name)
    requires d < |v|
  {
    var es := v[d].entries;
    var k := Find(es, name);
    && name != DOT && name != DOTDOT && k < |es| && es[k].inum < |v|
    && (v[es[k].inum].kind == Dir ==> Empty(v[es[k].inum]))
  }

  /** Entry k of directory d is zeroed, d loses the link from the ".." of a directory, and the child loses one. */
  function Removed(v: Tree, d: nat, k: nat): Tree
    requires d < |v| && k < |v[d].entries| && v[d].entries[k].inum < |v|
  {
    var es := v[d].entries;
    var c := es[k].inum;
    var x := v[d].(entries := es[k := Dirent(0, [])], nlink := v[d].nlink - if v[c].kind == Dir then 1 else 0);
    var u := v[d := x];
    u[c := u[c].(nlink := u[c].nlink - 1)]
  }

  /** sys_unlink */
  ghost function Unlink(v: Tree, d: nat, name: Name): Tree
    requires d < |v|
  {
    if !Unlinkable(v, d, name) then v else Removed(v, d, Find(v[d].entries, name))
  }

  /** The entry that unlink finds is past the dots. */
  lemma {:induction false} FoundPastDots(v: Tree, d: nat, name: Name)
    requires DirsRight(v) && d < |v| && v[d].Live() && name != DOT && name != DOTDOT
    requires Find(v[d].entries, name) < |v[d].entries|
    ensures ChildAt(v, d, Find(v[d].entries, name), v[d].entries[Find(v[d].entries, name)].inum)
    ensures v[d].entries[Find(v[d].entries, name)].inum != 0
  {
    assert DotsFirst(v, d);
  }

  /** A named inode has a link: the panic of sys_unlink for a link count below one cannot happen. */
  lemma {:induction false} NamedIsLinked(v: Tree, d: nat, k: nat, c: nat)
    requires Inv(v) && ChildAt(v, d, k, c) && c != 0
    ensures v[c].nlink >= 1
  {
    assert DotsFirst(v, d);
    NamedInPositive(v[d].entries, c, 0, k);
    OneContributes(v, c, 0, d);
  }

  lemma {:induction false} OneContributes(v: Tree, i: nat, n: nat, d: nat)
    requires n <= d < |v|
    ensures LinksTo(v, i, n) >= LinksFrom(v[d], i)
    decreases |v| - n
  {
    if n < d { OneContributes(v, i, n + 1, d); }
  }

  /** An empty directory other than the root is nobody's parent. */
  lemma {:induction false} EmptyIsChildless(v: Tree, c: nat)
    requires DirsRight(v) && NamedByParent(v) && c < |v| && Empty(v[c]) && c != ROOTINO
    ensures Childless(v, c)
  {
    forall e | 0 <= e < |v| && v[e].Live() ensures Parent(v, e) != c {
      assert e != ROOTINO ==> InParent(v, e);
    }
  }

  /** The entries of an empty directory link to its parent, once. */
  lemma {:induction false} EmptyLinks(v: Tree, c: nat, j: nat)
    requires c < |v| && DotsFirst(v, c) && Empty(v[c]) && j != 0
    ensures NamedIn(v[c].entries, j, 0) == if j == Parent(v, c) then 1 else 0
  {
    NamedInZero(v[c].entries, j, 2);
    assert NamedIn(v[c].entries, j, 1) == if j == Parent(v, c) then 1 else 0;
  }

  /** An empty directory other than the root is named by its entry in its parent alone. */
  lemma {:induction false} EmptyNamedOnce(v: Tree, d: nat, k: nat, c: nat, e: nat, l: nat)
    requires Inv(v) && ChildAt(v, d, k, c) && c != 0 && v[c].kind == Dir && Empty(v[c]) && Names(v, e, l, c)
    ensures e == d && l == k
  {
    EmptyIsChildless(v, c);
    assert DotsFirst(v, e);
    assert l >= 2 ==> ChildAt(v, e, l, c);
  }

  lemma {:induction false} EmptyHasOneLink(v: Tree, d: nat, k: nat, c: nat)
    requires Inv(v) && ChildAt(v, d, k, c) && c != 0 && v[c].kind == Dir && Empty(v[c])
    ensures v[c].nlink == 1 && c != d
  {
    var x := v[d].(entries := v[d].entries[k := Dirent(0, [])]);
    var u := v[d := x];
    assert DotsFirst(v, d);
    forall e: nat, l: nat ensures !Names(u, e, l, c) {
      if Names(v, e, l, c) { EmptyNamedOnce(v, d, k, c, e, l); }
    }
    NoLinks(u, c, 0);
    LinksToUpdate(v, d, x, c, 0);
    NamedInUpdate(v[d].entries, k, Dirent(0, []), c, 0);
  }

  /** The parent of an empty directory keeps a link when it loses the one from that directory's "..". */
  lemma {:induction false} ParentStaysLinked(v: Tree, d: nat, k: nat, c: nat)
    requires Inv(v) && ChildAt(v, d, k, c) && c != 0 && v[c].kind == Dir && Empty(v[c])
    ensures v[d].nlink >= 2
  {
    EmptyHasOneLink(v, d, k, c);
    EmptyIsChildless(v, c);
    var x := v[c].(nlink := 0);
    LinksToUpdate(v, c, x, d, 0);
    assert DotsFirst(v, c) && DotsFirst(v, d);
    EmptyLinks(v, c, d);
    var p := Parent(v, d);
    if d == ROOTINO {
      NamedInPositive(v[d].entries, d, 0, 1);
    } else {
      assert InParent(v, d);
      var l: nat :| ChildAt(v, p, l, d);
      assert DotsFirst(v, p);
      NamedInPositive(v[p].entries, d, 0, l);
    }
    OneContributes(v[c := x], d, 0, p);
  }

  /** From v to w, slot k of directory d has lost its entry, and besides no linked directory has gained or lost one. */
  ghost predicate ChildRemoved(v: Tree, w: Tree, d: nat, k: nat) {
    forall e: nat, l: nat, x: nat :: x != 0 ==> (ChildAt(w, e, l, x) <==> ChildAt(v, e, l, x) && !(e == d && l == k))
  }

  /** Removing one name keeps the shape of the tree, when the name of a directory goes with the directory itself. */
  lemma {:induction false} LostNameKeeps(v: Tree, w: Tree, d: nat, k: nat, c: nat, gone: nat)
    requires DirsRight(v) && ChildrenRight(v) && OneName(v) && NamedByParent(v)
    requires SameDirs(v, w, gone) && Childless(v, gone) && ChildRemoved(v, w, d, k) && ChildAt(v, d, k, c) && c != 0
    requires gone == if v[c].kind == Dir then c else 0
    ensures DirsRight(w) && ChildrenRight(w) && OneName(w) && NamedByParent(w)
  {
    SameDirsRight(v, w, gone);
    forall e: nat, l: nat, x: nat | ChildAt(w, e, l, x) && x != 0
      ensures x < |w| && w[x].kind != Free && x != e
      ensures (w[x].kind == Dir ==> w[x].Live() && Parent(w, x) == e && x != ROOTINO)
    {
      ParentKept(v, w, gone, x);
    }
    forall x: nat | x < |w| && w[x].Live() && x != ROOTINO ensures InParent(w, x) {
      ParentKept(v, w, gone, x);
      assert InParent(v, x);
      var l: nat :| ChildAt(v, Parent(v, x), l, x);
      assert DotsFirst(v, x);
      assert ChildAt(w, Parent(w, x), l, x);
    }
  }

  lemma {:induction false} UnlinkCounts(v: Tree, d: nat, name: Name)
    requires Inv(v) && d < |v| && v[d].Live() && Unlinkable(v, d, name)
    ensures CountsRight(Unlink(v, d, name))
  {
    var es := v[d].entries;
    var k := Find(es, name);
    var c := es[k].inum;
    FoundPastDots(v, d, name);
    assert DotsFirst(v, d);
    if v[c].kind == Dir {
      EmptyHasOneLink(v, d, k, c);
      ParentStaysLinked(v, d, k, c);
      assert DotsFirst(v, c);
    }
    var x := v[d].(entries := es[k := Dirent(0, [])], nlink := v[d].nlink - if v[c].kind == Dir then 1 else 0);
    var u := v[d := x];
    forall j | 1 <= j < |v| ensures Unlink(v, d, name)[j].nlink == LinksTo(Unlink(v, d, name), j, 0) {
      LinksToUpdate(v, d, x, j, 0);
      NamedInUpdate(es, k, Dirent(0, []), j, 0);
      LinksToUpdate(u, c, u[c].(nlink := u[c].nlink - 1), j, 0);
      if v[c].kind == Dir { EmptyLinks(v, c, j); }
    }
  }

  /** An unlinked directory has nothing left to unlink. */
  lemma LeftoverRefuses(v: Tree, d: nat, name: Name)
    requires Leftover(v, d)
    ensures !Unlinkable(v, d, name)
  {
    var es := v[d].entries;
    var k := Find(es, name);
    if k < |es| { assert Matches(es, k, name); }
  }

  /** Unlinking keeps the invariant, also in a directory that has been unlinked itself. */
  lemma {:induction false} UnlinkKeeps(v: Tree, d: nat, name: Name)
    requires Inv(v) && d < |v| && v[d].kind == Dir
    ensures Inv(Unlink(v, d, name))
  {
    if !v[d].Live() {
      assert Leftover(v, d);
      LeftoverRefuses(v, d, name);
    } else if Unlinkable(v, d, name) {
      UnlinkShape(v, d, name);
      UnlinkCounts(v, d, name);
      UnlinkLeftovers(v, d, name);
    }
  }

  lemma {:induction false} UnlinkLeftovers(v: Tree, d: nat, name: Name)
    requires Inv(v) && d < |v| && v[d].Live() && Unlinkable(v, d, name)
    ensures LeftoversEmpty(Unlink(v, d, name))
  {
    var w := Unlink(v, d, name);
    var k := Find(v[d].entries, name);
    var c := v[d].entries[k].inum;
    FoundPastDots(v, d, name);
    if v[c].kind == Dir {
      ParentStaysLinked(v, d, k, c);
      EmptyHasOneLink(v, d, k, c);
      assert DotsFirst(v, c);
    }
    LeftoversKept(v, w, c);
  }

  lemma {:induction false} UnlinkShape(v: Tree, d: nat, name: Name)
    requires Inv(v) && d < |v| && v[d].Live() && Unlinkable(v, d, name)
    ensures var w := Unlink(v, d, name); DirsRight(w) && ChildrenRight(w) && OneName(w) && NamedByParent(w)
  {
    var w := Unlink(v, d, name);
    var k := Find(v[d].entries, name);
    var c := v[d].entries[k].inum;
    FoundPastDots(v, d, name);
    assert DotsFirst(v, d);
    var gone := if v[c].kind == Dir then c else 0;
    if v[c].kind == Dir {
      EmptyHasOneLink(v, d, k, c);
      ParentStaysLinked(v, d, k, c);
      EmptyIsChildless(v, c);
    } else {
      NoZeroParent(v);
    }
    LostNameKeeps(v, w, d, k, c, gone);
  }

  lemma {:induction false} NoZeroParent(v: Tree)
    requires DirsRight(v)
    ensures Childless(v, 0)
  {
    forall e | 0 <= e < |v| && v[e].Live() ensures Parent(v, e) != 0 { assert DotsFirst(v, e); }
  }

  // ---------------------------------------------------------------- create

  /** create: a name already present leaves the tree as it was; otherwise inode c, free so far, becomes a file or a
      directory with its dots, and gets its name in d. */
  function Create(v: Tree, d: nat, name: Name, c: nat, kind: Kind): Tree
    requires c < |v| && d < |v|
  {
    if Find(v[d].entries, name) < |v[d].entries| then v else
    var x := Node(kind, 1, if kind == Dir then [Dirent(c, DOT), Dirent(d, DOTDOT)] else []);
    var y := Node(v[d].kind, v[d].nlink + if kind == Dir then 1 else 0, AddEntry(v[d].entries, Dirent(c, name)));
    v[c := x][d := y]
  }

  lemma {:induction false} CreateCounts(v: Tree, d: nat, name: Name, c: nat, kind: Kind)
    requires Inv(v) && d < |v| && v[d].Live() && 0 < c < |v| && v[c].kind == Free && kind != Free
    requires Find(v[d].entries, name) == |v[d].entries|
    ensures CountsRight(Create(v, d, name, c, kind))
  {
    var x := Node(kind, 1, if kind == Dir then [Dirent(c, DOT), Dirent(d, DOTDOT)] else []);
    var y := Node(v[d].kind, v[d].nlink + if kind == Dir then 1 else 0, AddEntry(v[d].entries, Dirent(c, name)));
    FreshName(v, d, name);
    FreeHasNoLinks(v, c);
    forall j | 1 <= j < |v| ensures Create(v, d, name, c, kind)[j].nlink == LinksTo(Create(v, d, name, c, kind), j, 0) {
      LinksToUpdate(v, c, x, j, 0);
      LinksToUpdate(v[c := x], d, y, j, 0);
      AddEntryCount(v[d].entries, Dirent(c, name), j);
      if kind == Dir { NewDirLinks(c, d, j); }
    }
  }

  lemma {:induction false} NewDirLinks(c: nat, d: nat, j: nat)
    requires c < 0x1_0000 && d < 0x1_0000
    ensures NamedIn([Dirent(c, DOT), Dirent(d, DOTDOT)], j, 0) == if j == d then 1 else 0
  {
    var es := [Dirent(c, DOT), Dirent(d, DOTDOT)];
    assert NamedIn(es, j, 2) == 0;
    assert NamedIn(es, j, 1) == if j == d then 1 else 0;
  }

  /** From v to w, inode c has become a directory under d, and all other nodes but d are as they were. */
  ghost predicate DirAdded(v: Tree, w: Tree, d: nat, c: nat) {
    && d < |v| == |w| && v[d].Live() && 0 < c < |v| && v[c].kind == Free && w[d].Live()
    && w[c] == Node(Dir, 1, [Dirent(c, DOT), Dirent(d, DOTDOT)])
    && DotsFirst(w, d) && Parent(w, d) == Parent(v, d)
    && forall e :: 0 <= e < |v| && e != d && e != c ==> w[e] == v[e]
  }

  lemma {:induction false} NewDirDirs(v: Tree, w: Tree, d: nat, c: nat)
    requires DirsRight(v) && DirAdded(v, w, d, c)
    ensures DirsRight(w)
  {
    forall e | 0 <= e < |w| && w[e].Live()
      ensures DotsFirst(w, e) && Parent(w, e) < |w| && w[Parent(w, e)].Live()
    {
      assert DotsFirst(v, d);
      if e != c { assert DotsFirst(v, e); }
    }
    assert DotsFirst(v, ROOTINO);
  }

  /** A new directory keeps the shape of the tree. */
  lemma {:induction false} NewDirKeeps(v: Tree, w: Tree, d: nat, c: nat)
    requires DirsRight(v) && ChildrenRight(v) && OneName(v) && NamedByParent(v)
    requires DirAdded(v, w, d, c) && ChildAdded(v, w, d, c)
    ensures DirsRight(w) && ChildrenRight(w) && OneName(w) && NamedByParent(w)
  {
    NewDirDirs(v, w, d, c);
    assert ChildAt(w, d, FreeSlot(v[d].entries, 0), c);
    forall x: nat | x < |w| && w[x].Live() && x != ROOTINO ensures InParent(w, x) {
      if x == c {
        assert Parent(w, x) == d;
      } else {
        assert x != 0 && v[x].Live() && Parent(w, x) == Parent(v, x);
        assert InParent(v, x);
        var k: nat :| ChildAt(v, Parent(v, x), k, x);
        assert ChildAt(w, Parent(w, x), k, x);
      }
    }
  }

  /** Creating a file or a directory keeps the invariant. */
  lemma {:induction false} CreateKeeps(v: Tree, d: nat, name: Name, c: nat, kind: Kind)
    requires Inv(v) && d < |v| && v[d].Live() && 0 < c < |v| && v[c].kind == Free && kind != Free
    ensures Inv(Create(v, d, name, c, kind))
  {
    if Find(v[d].entries, name) == |v[d].entries| {
      CreateCounts(v, d, name, c, kind);
      var w := Create(v, d, name, c, kind);
      AddChild(v, w, d, c, name);
      LeftoversKept(v, w, c);
      if kind == Dir {
        NewDirKeeps(v, w, d, c);
      } else {
        NewNameKeeps(v, w, d, c);
      }
    }
  }

  /** A file or directory created in a directory that has itself been unlinked: create keeps the invariant exactly when
      the parent is still linked. A new file has a link count but no link; a new directory gives its parent a link count
      again, but no name. */
  lemma {:induction false} CreateNeedsLinkedParent(v: Tree, d: nat, name: Name, c: nat, kind: Kind)
    requires Inv(v) && d < |v| && v[d].kind == Dir && Find(v[d].entries, name) == |v[d].entries|
    requires 0 < c < |v| && v[c].kind == Free && kind != Free
    ensures Inv(Create(v, d, name, c, kind)) <==> v[d].nlink > 0
  {
    if v[d].Live() {
      CreateKeeps(v, d, name, c, kind);
    } else if kind == Dir {
      UnnamedParent(v, d, name, c);
    } else {
      var x := Node(Other, 1, []);
      FreeHasNoLinks(v, c);
      LinksToUpdate(v, c, x, c, 0);
      LinksToUpdate(v[c := x], d, v[d].(entries := AddEntry(v[d].entries, Dirent(c, name))), c, 0);
      assert Create(v, d, name, c, kind)[c].nlink != LinksTo(Create(v, d, name, c, kind), c, 0);
    }
  }

  lemma {:induction false} UnnamedParent(v: Tree, d: nat, name: Name, c: nat)
    requires Inv(v) && d < |v| && v[d].kind == Dir && !v[d].Live() && Find(v[d].entries, name) == |v[d].entries|
    requires 0 < c < |v| && v[c].kind == Free
    ensures !Inv(Create(v, d, name, c, Dir))
  {
    var w := Create(v, d, name, c, Dir);
    assert Leftover(v, d);
    if Inv(w) {
      var p := Parent(v, d);
      assert w[d].nlink == LinksTo(v, d, 0) + 1 && Parent(w, d) == p;
      assert InParent(w, d);
      var k: nat :| ChildAt(w, p, k, d);
      assert ChildAt(v, p, k, d);
    }
  }

  /** So does link. */
  lemma {:induction false} LinkNeedsLinkedParent(v: Tree, i: nat, d: nat, name: Name)
    requires Inv(v) && d < |v| && v[d].kind == Dir && Find(v[d].entries, name) == |v[d].entries|
    requires 0 < i < |v| && v[i].kind == Other
    ensures Inv(Link(v, i, d, name)) <==> v[d].nlink > 0
  {
    if v[d].Live() {
      LinkKeeps(v, i, d, name);
    } else {
      var x := v[i].(nlink := v[i].nlink + 1);
      LinksToUpdate(v, i, x, i, 0);
      LinksToUpdate(v[i := x], d, v[d].(entries := AddEntry(v[d].entries, Dirent(i, name))), i, 0);
    }
  }

  // ---------------------------------------------------------------- reclaiming an unlinked inode

  /** iput on the last reference to an inode without links frees it. */
  function Reclaim(v: Tree, i: nat): Tree
    requires i < |v|
  {
    if v[i].nlink == 0 then v[i := Node(Free, 0, [])] else v
  }

  lemma {:induction false} ReclaimKeeps(v: Tree, i: nat)
    requires Inv(v) && 0 < i < |v|
    ensures Inv(Reclaim(v, i))
  {
    if v[i].nlink == 0 {
      var w := Reclaim(v, i);
      LeftoversKept(v, w, i);
      forall j | 1 <= j < |v| ensures w[j].nlink == LinksTo(w, j, 0) {
        LinksToUpdate(v, i, Node(Free, 0, []), j, 0);
      }
      forall e: nat, k: nat, c: nat ensures ChildAt(w, e, k, c) <==> ChildAt(v, e, k, c) {
      }
      forall e: nat, k: nat, c: nat | ChildAt(v, e, k, c) && c != 0 ensures c != i {
        NamedIsLinked(v, e, k, c);
      }
      forall e | 0 <= e < |w| && w[e].Live() ensures DotsFirst(w, e) && Parent(w, e) == Parent(v, e) {
        assert DotsFirst(v, e);
      }
      forall c: nat | c < |w| && w[c].Live() && c != ROOTINO ensures InParent(w, c) {
        assert InParent(v, c);
        var k: nat :| ChildAt(v, Parent(v, c), k, c);
        assert ChildAt(w, Parent(w, c), k, c);
      }
    }
  }

  // ---------------------------------------------------------------- the tree mkfs makes

  /** The root directory of mkfs: the dots, one entry a file, and empty entries up to the rounded size. */
  function RootEntries(names: seq<Name>, blanks: nat): seq<Dirent>
    requires |names| < 0xFFFE
  {
    [Dirent(1, DOT), Dirent(1, DOTDOT)]
    + seq<Dirent>(|names|, k requires 0 <= k < |names| => Dirent(2 + k, names[k]))
    + seq<Dirent>(blanks, k => Dirent(0, []))
  }

  /** The root, the files after it, and the free inodes. */
  function Formatted(names: seq<Name>, blanks: nat, free: nat): Tree
    requires |names| + 2 + free <= 0x1_0000 && |names| < 0xFFFE
  {
    [Node(Free, 0, []), Node(Dir, 1, RootEntries(names, blanks))]
    + seq<Node>(|names|, k => Node(Other, 1, [])) + seq<Node>(free, k => Node(Free, 0, []))
  }

  /** The only entry from n on that names i is entry k. */
  lemma {:induction false} NamedInOnce(es: seq<Dirent>, i: nat, n: nat, k: nat)
    requires n <= |es| && k < |es| && es[k].inum == i && es[k].name != DOT
    requires forall l :: n <= l < |es| && l != k ==> es[l].inum != i || es[l].name == DOT
    ensures NamedIn(es, i, n) == if n <= k then 1 else 0
    decreases |es| - n
  {
    if n < |es| { NamedInOnce(es, i, n + 1, k); }
  }

  /** With one linked directory, its entries are all the links. */
  lemma {:induction false} OnlyOneDir(v: Tree, d: nat, i: nat, n: nat)
    requires n <= |v| && d < |v| && forall e :: 0 <= e < |v| && e != d ==> !v[e].Live()
    ensures LinksTo(v, i, n) == if n <= d then LinksFrom(v[d], i) else 0
    decreases |v| - n
  {
    if n < |v| { OnlyOneDir(v, d, i, n + 1); }
  }

  lemma {:induction false} RootAt(names: seq<Name>, blanks: nat, k: nat)
    requires |names| < 0xFFFE && k < |RootEntries(names, blanks)|
    ensures RootEntries(names, blanks)[k] ==
              if k == 0 then Dirent(1, DOT) else if k == 1 then Dirent(1, DOTDOT) else
              if k < 2 + |names| then Dirent(k, names[k - 2]) else Dirent(0, [])
  {
  }

  lemma {:induction false} FormattedCount(names: seq<Name>, blanks: nat, i: nat)
    requires |names| < 0xFFFE && 1 <= i && forall k :: 0 <= k < |names| ==> names[k] != DOT
    ensures NamedIn(RootEntries(names, blanks), i, 0) == if i < 2 + |names| then 1 else 0
  {
    var es := RootEntries(names, blanks);
    forall k | 0 <= k < |es| ensures es[k].inum == if k < 2 then 1 else if k < 2 + |names| then k else 0 {
      RootAt(names, blanks, k);
    }
    RootAt(names, blanks, 0);
    if i < 2 + |names| {
      RootAt(names, blanks, i);
      NamedInOnce(es, i, 0, i);
    } else {
      NamedInZero(es, i, 0);
    }
  }

  lemma {:induction false} FormattedShape(v: Tree, names: seq<Name>, blanks: nat)
    requires |names| + 2 <= |v| && |names| < 0xFFFE
    requires forall k :: 0 <= k < |names| ==> names[k] != DOT && names[k] != DOTDOT
    requires v[0].kind == Free && v[1] == Node(Dir, 1, RootEntries(names, blanks))
    requires forall e :: 2 <= e < |v| ==> v[e].kind == if e < 2 + |names| then Other else Free
    ensures DirsRight(v) && ChildrenRight(v) && OneName(v) && NamedByParent(v)
  {
    RootAt(names, blanks, 0);
    RootAt(names, blanks, 1);
    forall k | 2 <= k < |v[1].entries|
      ensures v[1].entries[k] == if k < 2 + |names| then Dirent(k, names[k - 2]) else Dirent(0, [])
    {
      RootAt(names, blanks, k);
    }
    assert DotsFirst(v, 1) && Parent(v, 1) == 1;
    forall e | 0 <= e < |v| && v[e].Live() ensures e == 1 {
    }
  }

  /** A fresh volume satisfies the invariant. */
  lemma {:induction false} FormattedInOrder(names: seq<Name>, blanks: nat, free: nat)
    requires |names| + 2 + free <= 0x1_0000 && |names| < 0xFFFE
    requires forall k :: 0 <= k < |names| ==> names[k] != DOT && names[k] != DOTDOT
    ensures Inv(Formatted(names, blanks, free))
  {
    var v := Formatted(names, blanks, free);
    FormattedShape(v, names, blanks);
    forall i | 1 <= i < |v| ensures v[i].nlink == LinksTo(v, i, 0) {
      OnlyOneDir(v, 1, i, 0);
      FormattedCount(names, blanks, i);
    }
  }

  // ---------------------------------------------------------------- runs

  /** One system call, or the release of a last reference. */
  datatype Op =
    | DoLink(i: nat, d: nat, name: Name)
    | DoUnlink(d: nat, name: Name)
    | DoCreate(d: nat, name: Name, c: nat, kind: Kind)
    | DoReclaim(i: nat)

  /** What the callers have checked; the parent directory of a new name is still linked. */
  predicate Allowed(v: Tree, op: Op) {
    match op
    case DoLink(i, d, _) => i < |v| && v[i].kind == Other && d < |v| && v[d].Live()
    case DoUnlink(d, _) => d < |v| && v[d].kind == Dir
    case DoCreate(d, _, c, kind) => d < |v| && v[d].Live() && 0 < c < |v| && v[c].kind == Free && kind != Free
    case DoReclaim(i) => 0 < i < |v|
  }

  ghost function Apply(v: Tree, op: Op): Tree
    requires Allowed(v, op)
  {
    match op
    case DoLink(i, d, name) => Link(v, i, d, name)
    case DoUnlink(d, name) => Unlink(v, d, name)
    case DoCreate(d, name, c, kind) => Create(v, d, name, c, kind)
    case DoReclaim(i) => Reclaim(v, i)
  }

  ghost predicate AllAllowed(v: Tree, ops: seq<Op>)
    decreases |ops|
  {
    ops == [] || (Allowed(v, ops[0]) && AllAllowed(Apply(v, ops[0]), ops[1..]))
  }

  ghost function Run(v: Tree, ops: seq<Op>): Tree
    requires AllAllowed(v, ops)
    decreases |ops|
  {
    if ops == [] then v else Run(Apply(v, ops[0]), ops[1..])
  }

  /** In every run of link, unlink, create and reclaim from a tree in order, link counts stay in-degrees. */
  lemma {:induction false} RunsKeepCounts(v: Tree, ops: seq<Op>)
    requires Inv(v) && AllAllowed(v, ops)
    ensures Inv(Run(v, ops))
    decreases |ops|
  {
    if ops != [] {
      match ops[0] {
        case DoLink(i, d, name) => LinkKeeps(v, i, d, name);
        case DoUnlink(d, name) => UnlinkKeeps(v, d, name);
        case DoCreate(d, name, c, kind) => CreateKeeps(v, d, name, c, kind);
        case DoReclaim(i) => ReclaimKeeps(v, i);
      }
      RunsKeepCounts(Apply(v, ops[0]), ops[1..]);
    }
  }

  /** From a fresh volume on, in every run, each link count is the number of entries not named "." that name the inode
      in directories that are still linked. */
  lemma {:induction false} LinkCountsAreInDegrees(names: seq<Name>, blanks: nat, free: nat, ops: seq<Op>, i: nat)
    requires |names| + 2 + free <= 0x1_0000 && |names| < 0xFFFE
    requires forall k :: 0 <= k < |names| ==> names[k] != DOT && names[k] != DOTDOT
    requires AllAllowed(Formatted(names, blanks, free), ops) && 1 <= i < |Run(Formatted(names, blanks, free), ops)|
    ensures var v := Run(Formatted(names, blanks, free), ops); v[i].nlink == LinksTo(v, i, 0)
  {
    FormattedInOrder(names, blanks, free);
    RunsKeepCounts(Formatted(names, blanks, free), ops);
  }

  /** A directory made in the root of an empty tree. */
  lemma {:induction false} MadeDirectory(name: Name)
    requires name != DOT && name != DOTDOT
    ensures var v := Create(Formatted([], 0, 2), 1, name, 2, Dir);
      && |v| == 4 && v[1] == Node(Dir, 2, [Dirent(1, DOT), Dirent(1, DOTDOT), Dirent(2, name)])
      && v[2] == Node(Dir, 1, [Dirent(2, DOT), Dirent(1, DOTDOT)]) && v[3] == Node(Free, 0, [])
  {
    var v := Formatted([], 0, 2);
    assert v[1].entries == [Dirent(1, DOT), Dirent(1, DOTDOT)];
    assert !Matches(v[1].entries, 0, name) && !Matches(v[1].entries, 1, name);
    assert FreeSlot(v[1].entries, 0) == 2;
    assert v[2] == Node(Free, 0, []) && v[3] == Node(Free, 0, []);
  }

  /** And removed again. */
  lemma {:induction false} RemovedDirectory(name: Name, v: Tree)
    requires name != DOT && name != DOTDOT && |v| == 4
    requires v[1] == Node(Dir, 2, [Dirent(1, DOT), Dirent(1, DOTDOT), Dirent(2, name)])
    requires v[2] == Node(Dir, 1, [Dirent(2, DOT), Dirent(1, DOTDOT)])
    ensures var w := Unlink(v, 1, name); |w| == 4 && w[2] == v[2].(nlink := 0) && w[3] == v[3]
  {
    var es := v[1].entries;
    assert !Matches(es, 0, name) && !Matches(es, 1, name) && Matches(es, 2, name);
    assert Find(es, name) == 2;
  }

  /** Such an unlinked directory comes about: made and removed while somebody uses it. Nothing can be created in it
      without breaking the invariant. */
  lemma {:induction false} UnlinkedDirectory(name: Name) returns (ops: seq<Op>, v: Tree)
    requires name != DOT && name != DOTDOT
    ensures AllAllowed(Formatted([], 0, 2), ops) && v == Run(Formatted([], 0, 2), ops)
    ensures Inv(v) && |v| == 4 && v[2].kind == Dir && v[2].nlink == 0 && v[3].kind == Free
    ensures forall kind :: kind != Free ==> !Inv(Create(v, 2, name, 3, kind))
  {
    var v0 := Formatted([], 0, 2);
    FormattedInOrder([], 0, 2);
    MadeDirectory(name);
    var v1 := Create(v0, 1, name, 2, Dir);
    RemovedDirectory(name, v1);
    v := Unlink(v1, 1, name);
    ops := TwoOps(v0, DoCreate(1, name, 2, Dir), DoUnlink(1, name));
    RunsKeepCounts(v0, ops);
    assert !Matches(v[2].entries, 0, name) && !Matches(v[2].entries, 1, name);
    forall kind | kind != Free ensures !Inv(Create(v, 2, name, 3, kind)) {
      CreateNeedsLinkedParent(v, 2, name, 3, kind);
    }
  }

  lemma TwoOps(v: Tree, a: Op, b: Op) returns (ops: seq<Op>)
    requires Allowed(v, a) && Allowed(Apply(v, a), b)
    ensures AllAllowed(v, ops) && Run(v, ops) == Apply(Apply(v, a), b)
  {
    ops := [a, b];
    assert ops[1..] == [b] && [b][1..] == [];
    assert AllAllowed(Apply(Apply(v, a), b), []);
    assert AllAllowed(Apply(v, a), [b]) && Run(Apply(v, a), [b]) == Apply(Apply(v, a), b);
  }
}
