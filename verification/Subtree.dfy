/** Directory rename as a remapping of the stored maps. */
module Subtree {
  import opened Errnos
  import opened RepoTree
  import MerkleBuild

  // ----- paths

  predicate IsParentOrSame(parent: Path, child: Path) {
    parent <= child
  }

  /** Off the subtree a path stays as it is. */
  function RemapPath(oldBase: Path, newBase: Path, target: Path): Path {
    if oldBase <= target then newBase + target[|oldBase|..] else target
  }

  lemma RemapBack(oldBase: Path, newBase: Path, p: Path)
    requires oldBase <= p
    ensures newBase <= RemapPath(oldBase, newBase, p) && RemapPath(newBase, oldBase, RemapPath(oldBase, newBase, p)) == p
  {
    var q := RemapPath(oldBase, newBase, p);
    assert q[|newBase|..] == p[|oldBase|..];
    assert p == oldBase + p[|oldBase|..];
  }

  // ----- collectSubtree

  /** One directory's children, each once. */
  method DirectoryChildren(t: Tree, dir: Path) returns (dirs: seq<Path>, files: seq<Path>)
    ensures Distinct(dirs) && forall p :: p in dirs <==> p in t.dirs && IsChild(dir, p)
    ensures Distinct(files) && forall p :: p in files <==> p in t.files && IsChild(dir, p)
  {
    dirs := Listed(set p | p in t.dirs && IsChild(dir, p));
    files := Listed(set p | p in t.files && IsChild(dir, p));
  }

  method Listed(s: set<Path>) returns (list: seq<Path>)
    ensures Distinct(list) && forall p :: p in list <==> p in s
  {
    list := [];
    var rest := s;
    while rest != {}
      invariant rest <= s && Distinct(list) && forall p :: p in list <==> p in s - rest
      decreases |rest|
    {
      var p :| p in rest;
      assert p !in list;
      list := list + [p];
      rest := rest - {p};
    }
  }

  predicate Distinct(s: seq<Path>) {
    forall i, j :: 0 <= i < j < |s| ==> s[i] != s[j]
  }

  /** What is collected: the base, and every stored directory below it. */
  predicate InSubtree(t: Tree, base: Path, p: Path) {
    p == base || (p in t.dirs && base <= p)
  }

  /** A breadth-first walk has met every child of each directory it has expanded, and nothing twice. */
  ghost predicate Walking(t: Tree, base: Path, dirs: seq<Path>, done: nat, files: seq<Path>) {
    && done <= |dirs| && Distinct(dirs) && Distinct(files) && base in dirs
    && (forall p :: p in dirs ==> InSubtree(t, base, p))
    && (forall p :: p in dirs && p != base ==> Parent(p) in dirs[..done])
    && (forall p :: p in t.dirs && p != [] && Parent(p) in dirs[..done] ==> p in dirs)
    && (forall p :: p in files <==> p in t.files && p != [] && Parent(p) in dirs[..done])
  }

  /** The subtree of `base`, found by walking down from it. */
  method CollectSubtree(t: Tree, base: Path) returns (dirs: seq<Path>, files: seq<Path>)
    requires MerkleBuild.CheckTreeParents(t) && base != []
    ensures Distinct(dirs) && forall p :: p in dirs <==> InSubtree(t, base, p)
    ensures Distinct(files) && forall p :: p in files <==> p in t.files && base <= p && p != base
  {
    dirs, files := [base], [];
    var done := 0;
    while done < |dirs|
      invariant Walking(t, base, dirs, done, files)
      decreases |t.dirs| + 1 - done
    {
      var childDirs, childFiles := DirectoryChildren(t, dirs[done]);
      WalkNext(t, base, dirs, done, files, childDirs, childFiles);
      dirs, files, done := dirs + childDirs, files + childFiles, done + 1;
      WalkBounded(t, base, dirs);
    }
    assert dirs[..done] == dirs;
    forall p | InSubtree(t, base, p) ensures p in dirs {
      AllMet(t, base, dirs, files, p);
    }
    forall p ensures p in files <==> p in t.files && base <= p && p != base {
      FileMet(t, base, dirs, files, p);
    }
  }

  lemma ConcatDistinct(a: seq<Path>, b: seq<Path>)
    requires Distinct(a) && Distinct(b) && forall p :: p in a ==> p !in b
    ensures Distinct(a + b)
  {
    var c := a + b;
    forall i, j | 0 <= i < j < |c| ensures c[i] != c[j] {
      if i < |a| <= j {
        assert c[i] in a && c[j] in b;
      }
    }
  }

  lemma WalkNext(t: Tree, base: Path, dirs: seq<Path>, done: nat, files: seq<Path>, childDirs: seq<Path>, childFiles: seq<Path>)
    requires Walking(t, base, dirs, done, files) && done < |dirs| && base != []
    requires Distinct(childDirs) && forall p :: p in childDirs <==> p in t.dirs && IsChild(dirs[done], p)
    requires Distinct(childFiles) && forall p :: p in childFiles <==> p in t.files && IsChild(dirs[done], p)
    ensures Walking(t, base, dirs + childDirs, done + 1, files + childFiles)
  {
    var cur, all := dirs[done], dirs + childDirs;
    assert all[..done + 1] == dirs[..done] + [cur];
    assert cur !in dirs[..done];
    assert InSubtree(t, base, cur);
    forall p | p in childDirs ensures p !in dirs && InSubtree(t, base, p) {
      assert Parent(p) == cur && base <= cur && cur == p[..|p| - 1];
    }
    ConcatDistinct(dirs, childDirs);
    ConcatDistinct(files, childFiles);
  }

  lemma WalkBounded(t: Tree, base: Path, dirs: seq<Path>)
    requires Distinct(dirs) && forall p :: p in dirs ==> InSubtree(t, base, p)
    ensures |dirs| <= |t.dirs| + 1
  {
    var s := set p | p in dirs;
    DistinctCard(dirs);
    assert s <= t.dirs.Keys + {base};
    CardAtMost(s, t.dirs.Keys + {base});
  }

  lemma CardAtMost(a: set<Path>, b: set<Path>)
    requires a <= b
    ensures |a| <= |b|
  {
    assert b == a + (b - a);
  }

  lemma {:induction false} DistinctCard(s: seq<Path>)
    requires Distinct(s)
    ensures |set p | p in s| == |s|
  {
    if s != [] {
      var init := s[..|s| - 1];
      DistinctCard(init);
      assert (set p | p in s) == (set p | p in init) + {s[|s| - 1]};
    }
  }

  lemma {:induction false} AllMet(t: Tree, base: Path, dirs: seq<Path>, files: seq<Path>, p: Path)
    requires MerkleBuild.CheckTreeParents(t) && base != [] && Walking(t, base, dirs, |dirs|, files) && dirs[..|dirs|] == dirs
    requires InSubtree(t, base, p)
    ensures p in dirs
    decreases |p|
  {
    if p != base {
      assert base <= Parent(p) && Parent(p) != [];
      AllMet(t, base, dirs, files, Parent(p));
    }
  }

  lemma FileMet(t: Tree, base: Path, dirs: seq<Path>, files: seq<Path>, p: Path)
    requires MerkleBuild.CheckTreeParents(t) && base != [] && Walking(t, base, dirs, |dirs|, files) && dirs[..|dirs|] == dirs
    ensures p in files <==> p in t.files && base <= p && p != base
  {
    if p in t.files && base <= p && p != base {
      assert base <= Parent(p) && Parent(p) != [];
      AllMet(t, base, dirs, files, Parent(p));
    }
    if p in files {
      assert InSubtree(t, base, Parent(p)) && Parent(p) == p[..|p| - 1];
    }
  }

  // ----- the remapped maps

  function StampDir(d: DirMeta, now: int): DirMeta {
    d.(modifiedAt := now, changedAt := now)
  }

  function StampFile(f: FileMeta, now: int): FileMeta {
    f.(changedAt := now)
  }

  /** The keys after the move: the subtree's under the new base, all others as they were. */
  function MovedKeys(keys: set<Path>, oldBase: Path, newBase: Path): (r: set<Path>)
    ensures forall p :: p in r <==>
      (p in keys && !(oldBase <= p)) || (newBase <= p && RemapPath(newBase, oldBase, p) in keys)
  {
    var moved := set p | p in keys && oldBase <= p :: RemapPath(oldBase, newBase, p);
    assert forall p :: p in moved <==> newBase <= p && RemapPath(newBase, oldBase, p) in keys by {
      forall p ensures p in moved <==> newBase <= p && RemapPath(newBase, oldBase, p) in keys {
        if newBase <= p {
          RemapBack(newBase, oldBase, p);
        }
        if p in moved {
          var q :| q in keys && oldBase <= q && p == RemapPath(oldBase, newBase, q);
          RemapBack(oldBase, newBase, q);
        }
      }
    }
    (set p | p in keys && !(oldBase <= p)) + moved
  }

  /** Nothing is stored under the new base, and neither base lies under the other. */
  predicate Clear(keys: set<Path>, oldBase: Path, newBase: Path) {
    !(oldBase <= newBase) && !(newBase <= oldBase) && forall p :: p in keys ==> !(newBase <= p)
  }

  function Moved<V>(m: map<Path, V>, oldBase: Path, newBase: Path, stamp: V -> V): (r: map<Path, V>)
    ensures r.Keys == MovedKeys(m.Keys, oldBase, newBase)
  {
    map p | p in MovedKeys(m.Keys, oldBase, newBase) ::
      if newBase <= p && RemapPath(newBase, oldBase, p) in m then stamp(m[RemapPath(newBase, oldBase, p)]) else m[p]
  }

  datatype Entry<V> = Entry(from: Path, to: Path, value: V)

  /** `cur` is `m` with the entries of `done` moved. */
  ghost predicate PartMoved<V>(m: map<Path, V>, cur: map<Path, V>, done: seq<Path>, oldBase: Path, newBase: Path, stamp: V -> V) {
    && (forall p :: p in cur <==> (p in m && p !in done) || (newBase <= p && RemapPath(newBase, oldBase, p) in done))
    && (forall p :: p in done ==> p in m)
    && (forall p :: p in cur && newBase <= p ==> RemapPath(newBase, oldBase, p) in m && cur[p] == stamp(m[RemapPath(newBase, oldBase, p)]))
    && (forall p :: p in cur && !(newBase <= p) ==> p in m && cur[p] == m[p])
  }

  lemma PartNext<V>(m: map<Path, V>, cur: map<Path, V>, done: seq<Path>, from: Path, oldBase: Path, newBase: Path, stamp: V -> V)
    requires PartMoved(m, cur, done, oldBase, newBase, stamp) && Clear(m.Keys, oldBase, newBase)
    requires from in m && oldBase <= from && from !in done && forall p :: p in done ==> oldBase <= p
    ensures PartMoved(m, (cur - {from})[RemapPath(oldBase, newBase, from) := stamp(m[from])], done + [from], oldBase, newBase, stamp)
  {
    var to := RemapPath(oldBase, newBase, from);
    RemapBack(oldBase, newBase, from);
    var r := (cur - {from})[to := stamp(m[from])];
    assert !(newBase <= from);
    forall p ensures p in r <==> (p in m && p !in done + [from]) || (newBase <= p && RemapPath(newBase, oldBase, p) in done + [from]) {
      if newBase <= p {
        RemapBack(newBase, oldBase, p);
      }
    }
  }

  /** The entry a remap of `from` will write. */
  function EntryOf<V>(m: map<Path, V>, from: Path, oldBase: Path, newBase: Path, stamp: V -> V): Entry<V>
    requires from in m
  {
    Entry(from, RemapPath(oldBase, newBase, from), stamp(m[from]))
  }

  /** The entries to move, taken before any of them is touched. */
  method CollectRemaps<V>(m: map<Path, V>, list: seq<Path>, oldBase: Path, newBase: Path, stamp: V -> V) returns (remaps: seq<Entry<V>>)
    requires forall i :: 0 <= i < |list| ==> list[i] in m
    ensures |remaps| == |list| && forall k :: 0 <= k < |list| ==> remaps[k] == EntryOf(m, list[k], oldBase, newBase, stamp)
  {
    remaps := [];
    for i := 0 to |list|
      invariant |remaps| == i
      invariant forall k :: 0 <= k < i ==> remaps[k] == EntryOf(m, list[k], oldBase, newBase, stamp)
    {
      remaps := remaps + [EntryOf(m, list[i], oldBase, newBase, stamp)];
    }
  }

  /** Collected first, then removed and rewritten entry by entry. */
  method RemapEntries<V>(m: map<Path, V>, list: seq<Path>, oldBase: Path, newBase: Path, stamp: V -> V) returns (cur: map<Path, V>)
    requires Distinct(list) && forall p :: p in list <==> p in m && oldBase <= p
    requires Clear(m.Keys, oldBase, newBase)
    ensures cur == Moved(m, oldBase, newBase, stamp)
  {
    assert forall i :: 0 <= i < |list| ==> list[i] in list;
    var remaps := CollectRemaps(m, list, oldBase, newBase, stamp);
    cur := m;
    for i := 0 to |remaps|
      invariant PartMoved(m, cur, list[..i], oldBase, newBase, stamp)
    {
      NextListed(list, i);
      PartNext(m, cur, list[..i], list[i], oldBase, newBase, stamp);
      cur := (cur - {remaps[i].from})[remaps[i].to := remaps[i].value];
    }
    assert list[..|list|] == list;
    AllMoved(m, cur, list, oldBase, newBase, stamp);
  }

  lemma NextListed(list: seq<Path>, i: nat)
    requires i < |list| && Distinct(list)
    ensures list[i] in list && list[i] !in list[..i] && list[..i + 1] == list[..i] + [list[i]]
    ensures forall p :: p in list[..i] ==> p in list
  {
  }

  lemma AllMoved<V>(m: map<Path, V>, cur: map<Path, V>, list: seq<Path>, oldBase: Path, newBase: Path, stamp: V -> V)
    requires PartMoved(m, cur, list, oldBase, newBase, stamp) && forall p :: p in list <==> p in m && oldBase <= p
    ensures cur == Moved(m, oldBase, newBase, stamp)
  {
    var want := Moved(m, oldBase, newBase, stamp);
    forall p ensures p in cur <==> p in want {
      if newBase <= p {
        RemapBack(newBase, oldBase, p);
      }
    }
    forall p | p in cur ensures cur[p] == want[p] {
    }
  }

  // ----- renameDirInTxn

  function Touch(t: Tree, dir: Path, now: int): Tree {
    if dir == [] then t.(root := StampDir(t.root, now))
    else if dir in t.dirs then t.(dirs := t.dirs[dir := StampDir(t.dirs[dir], now)])
    else t
  }

  predicate HasChildren(t: Tree, dir: Path) {
    (exists p :: p in t.dirs && IsChild(dir, p)) || (exists p :: p in t.files && IsChild(dir, p))
  }

  /** Renaming a stored directory: refused onto a file, into itself and onto what is not empty;
      otherwise the subtree moves and both parents are stamped. */
  function Renamed(t: Tree, oldBase: Path, newBase: Path, now: int): (Errno, Tree) {
    if newBase in t.files then (ENOTDIR, t)
    else if IsParentOrSame(oldBase, newBase) then (EINVAL, t)
    else if (newBase == [] || newBase in t.dirs) && HasChildren(t, newBase) then (ENOTEMPTY, t)
    else
      var moved := t.(
        dirs := Moved(t.dirs - {newBase}, oldBase, newBase, (d: DirMeta) => StampDir(d, now)),
        files := Moved(t.files, oldBase, newBase, (f: FileMeta) => StampFile(f, now)));
      (OK, Touch(Touch(moved, Parent(oldBase), now), Parent(newBase), now))
  }

  /** A stored entry strictly below a directory shows that the directory is stored and not empty. */
  lemma {:induction false} ChildTowards(t: Tree, d: Path, p: Path)
    requires MerkleBuild.CheckTreeParents(t) && (p in t.dirs || p in t.files) && d <= p && d != p
    ensures HasChildren(t, d) && (d == [] || d in t.dirs)
    decreases |p|
  {
    assert d <= Parent(p);
    if Parent(p) == d {
      assert IsChild(d, p);
    } else {
      ChildTowards(t, d, Parent(p));
    }
  }

  /** An empty or missing directory has nothing stored under it, so nothing can collide. */
  lemma NothingBelow(t: Tree, oldBase: Path, newBase: Path)
    requires MerkleBuild.CheckTreeParents(t) && oldBase in t.dirs && oldBase != [] && newBase !in t.files
    requires !(oldBase <= newBase) && ((newBase == [] || newBase in t.dirs) ==> !HasChildren(t, newBase))
    ensures newBase != [] && MerkleBuild.CheckTreeParents(t.(dirs := t.dirs - {newBase}))
    ensures Clear((t.dirs - {newBase}).Keys, oldBase, newBase) && Clear(t.files.Keys, oldBase, newBase)
  {
    if newBase <= oldBase {
      ChildTowards(t, newBase, oldBase);
      assert false;
    }
    forall p | p in t.files || p in t.dirs - {newBase} ensures !(newBase <= p) {
      if newBase <= p {
        ChildTowards(t, newBase, p);
      }
    }
    EmptyGoes(t, newBase);
  }

  lemma EmptyGoes(t: Tree, dir: Path)
    requires MerkleBuild.CheckTreeParents(t) && (dir in t.dirs ==> !HasChildren(t, dir))
    ensures MerkleBuild.CheckTreeParents(t.(dirs := t.dirs - {dir}))
  {
    forall p | (p in t.files || p in t.dirs) && Parent(p) != [] ensures Parent(p) in t.dirs - {dir} {
      assert IsChild(Parent(p), p);
    }
  }

  lemma ChildBelow(d: Path, p: Path)
    requires IsChild(d, p)
    ensures d <= p && p != d
  {
  }

  /** A rename is allowed exactly when the target is no file, does not lie in the source, and nothing
      is stored below it; it says which of these it missed, in that order, and then changes nothing. */
  lemma RenameAllowedIff(t: Tree, oldBase: Path, newBase: Path, now: int)
    requires MerkleBuild.CheckTreeParents(t) && oldBase in t.dirs && oldBase != []
    ensures var (errno, r) := Renamed(t, oldBase, newBase, now);
      && (errno == OK <==>
        && newBase !in t.files && !(oldBase <= newBase)
        && forall p :: p in t.files || p in t.dirs ==> newBase <= p ==> p == newBase)
      && (errno != OK ==> errno == (if newBase in t.files then ENOTDIR else if oldBase <= newBase then EINVAL else ENOTEMPTY) && r == t)
  {
    var full := (newBase == [] || newBase in t.dirs) && HasChildren(t, newBase);
    if p :| (p in t.files || p in t.dirs) && newBase <= p && p != newBase {
      ChildTowards(t, newBase, p);
      assert full;
    }
    if full {
      var p :| (p in t.dirs || p in t.files) && IsChild(newBase, p);
      ChildBelow(newBase, p);
    }
  }

  class Repo {
    var tree: Tree

    constructor (tree: Tree)
      ensures this.tree == tree
    {
      this.tree := tree;
    }

    method TouchParentDirectory(target: Path, now: int)
      modifies this
      ensures tree == Touch(old(tree), Parent(target), now)
    {
      var dir := Parent(target);
      if dir == [] {
        tree := tree.(root := StampDir(tree.root, now));
      } else if dir in tree.dirs {
        tree := tree.(dirs := tree.dirs[dir := StampDir(tree.dirs[dir], now)]);
      }
    }

    method RemapTree(oldBase: Path, newBase: Path, now: int)
      requires MerkleBuild.CheckTreeParents(tree) && oldBase in tree.dirs && oldBase != []
      requires Clear(tree.dirs.Keys, oldBase, newBase) && Clear(tree.files.Keys, oldBase, newBase)
      modifies this
      ensures tree == old(tree).(
        dirs := Moved(old(tree).dirs, oldBase, newBase, (d: DirMeta) => StampDir(d, now)),
        files := Moved(old(tree).files, oldBase, newBase, (f: FileMeta) => StampFile(f, now)))
    {
      var dirs, files := CollectSubtree(tree, oldBase);
      var movedDirs := RemapEntries(tree.dirs, dirs, oldBase, newBase, (d: DirMeta) => StampDir(d, now));
      var movedFiles := RemapEntries(tree.files, files, oldBase, newBase, (f: FileMeta) => StampFile(f, now));
      tree := tree.(dirs := movedDirs, files := movedFiles);
    }

    method RenameDir(oldBase: Path, newBase: Path, now: int) returns (errno: Errno)
      requires MerkleBuild.CheckTreeParents(tree) && oldBase in tree.dirs && oldBase != [] && [] !in tree.dirs
      modifies this
      ensures (errno, tree) == Renamed(old(tree), oldBase, newBase, now)
    {
      if newBase in tree.files {
        return ENOTDIR;
      }
      if IsParentOrSame(oldBase, newBase) {
        return EINVAL;
      }
      if newBase == [] || newBase in tree.dirs {
        var childDirs, childFiles := DirectoryChildren(tree, newBase);
        if |childDirs| > 0 || |childFiles| > 0 {
          assert |childDirs| > 0 ==> childDirs[0] in childDirs;
          assert |childFiles| > 0 ==> childFiles[0] in childFiles;
          return ENOTEMPTY;
        }
        assert forall p :: p in tree.dirs && IsChild(newBase, p) ==> p in childDirs;
        assert forall p :: p in tree.files && IsChild(newBase, p) ==> p in childFiles;
      }
      NothingBelow(tree, oldBase, newBase);
      tree := tree.(dirs := tree.dirs - {newBase});
      RemapTree(oldBase, newBase, now);
      TouchParentDirectory(oldBase, now);
      TouchParentDirectory(newBase, now);
      errno := OK;
    }
  }

  // ----- what a rename keeps

  /** The parent of the target is stored, which the verb checks first. */
  predicate ParentStored(t: Tree, p: Path) {
    p != [] && (Parent(p) == [] || Parent(p) in t.dirs)
  }

  /** The tree moved, before the parents are stamped. */
  function MovedTree(t: Tree, oldBase: Path, newBase: Path, now: int): Tree {
    t.(dirs := Moved(t.dirs - {newBase}, oldBase, newBase, (d: DirMeta) => StampDir(d, now)),
       files := Moved(t.files, oldBase, newBase, (f: FileMeta) => StampFile(f, now)))
  }

  lemma TouchKeeps(t: Tree, dir: Path, now: int)
    ensures var r := Touch(t, dir, now);
      r.files == t.files && r.dirs.Keys == t.dirs.Keys && forall p :: p in r.dirs ==> r.dirs[p] == t.dirs[p] || (p == dir && r.dirs[p] == StampDir(t.dirs[p], now))
    ensures MerkleBuild.CheckTreeParents(t) ==> MerkleBuild.CheckTreeParents(Touch(t, dir, now))
  {
  }

  /** What a successful rename started from. */
  lemma RenameStart(t: Tree, oldBase: Path, newBase: Path, now: int)
    requires MerkleBuild.CheckTreeParents(t) && oldBase in t.dirs && oldBase != [] && Renamed(t, oldBase, newBase, now).0 == OK
    ensures newBase != [] && newBase !in t.files && MerkleBuild.CheckTreeParents(t.(dirs := t.dirs - {newBase}))
    ensures Clear((t.dirs - {newBase}).Keys, oldBase, newBase) && Clear(t.files.Keys, oldBase, newBase)
    ensures Renamed(t, oldBase, newBase, now).1 ==
      Touch(Touch(MovedTree(t, oldBase, newBase, now), Parent(oldBase), now), Parent(newBase), now)
  {
    NothingBelow(t, oldBase, newBase);
  }

  lemma PrefixOfParent(a: Path, p: Path)
    ensures p != [] && a <= Parent(p) ==> a <= p
  {
  }

  /** The parent of a moved entry is the moved parent. */
  lemma MovedParent(t: Tree, oldBase: Path, newBase: Path, p: Path)
    requires MerkleBuild.CheckTreeParents(t) && oldBase in t.dirs && oldBase != [] && newBase != []
    requires Clear(t.dirs.Keys, oldBase, newBase) && Clear(t.files.Keys, oldBase, newBase)
    requires ParentStored(t, newBase)
    requires p in MovedKeys(t.dirs.Keys, oldBase, newBase) || p in MovedKeys(t.files.Keys, oldBase, newBase)
    requires Parent(p) != []
    ensures Parent(p) in MovedKeys(t.dirs.Keys, oldBase, newBase)
  {
    var up := Parent(p);
    if newBase <= p && p != newBase {
      var q := RemapPath(newBase, oldBase, p);
      RemapBack(newBase, oldBase, p);
      assert newBase <= up && RemapPath(newBase, oldBase, up) == Parent(q);
      assert oldBase <= Parent(q);
    } else {
      assert p == newBase || ((p in t.dirs || p in t.files) && !(oldBase <= p));
      PrefixOfParent(oldBase, p);
      assert up in t.dirs && !(oldBase <= up);
    }
  }

  /** A rename keeps every parent stored and no path both file and directory. */
  lemma RenameKeepsTree(t: Tree, oldBase: Path, newBase: Path, now: int)
    requires MerkleBuild.CheckTreeParents(t) && oldBase in t.dirs && oldBase != [] && ParentStored(t, newBase)
    requires Renamed(t, oldBase, newBase, now).0 == OK
    ensures MerkleBuild.CheckTreeParents(Renamed(t, oldBase, newBase, now).1)
  {
    RenameStart(t, oldBase, newBase, now);
    var rest, moved := t.(dirs := t.dirs - {newBase}), MovedTree(t, oldBase, newBase, now);
    forall p | (p in moved.dirs || p in moved.files) && Parent(p) != [] ensures Parent(p) in moved.dirs {
      MovedParent(rest, oldBase, newBase, p);
    }
    forall p | p in moved.files ensures p !in moved.dirs && p != [] {
      FileNotDir(rest, oldBase, newBase, p);
    }
    assert MerkleBuild.CheckTreeParents(moved);
    TouchKeeps(moved, Parent(oldBase), now);
    TouchKeeps(Touch(moved, Parent(oldBase), now), Parent(newBase), now);
  }

  lemma FileNotDir(t: Tree, oldBase: Path, newBase: Path, p: Path)
    requires MerkleBuild.CheckTreeParents(t) && oldBase != [] && newBase != []
    requires Clear(t.dirs.Keys, oldBase, newBase) && Clear(t.files.Keys, oldBase, newBase)
    requires p in MovedKeys(t.files.Keys, oldBase, newBase)
    ensures p !in MovedKeys(t.dirs.Keys, oldBase, newBase) && p != []
  {
  }

  lemma SuffixMoved(oldBase: Path, newBase: Path, s: Path)
    ensures RemapPath(oldBase, newBase, oldBase + s) == newBase + s && oldBase <= oldBase + s
  {
    assert (oldBase + s)[|oldBase|..] == s;
  }

  /** Every entry of the subtree stands under the new base, and under the old one no more: a file as
      it was but for its change time, a directory as it was but for both its times. */
  lemma RenameMoves(t: Tree, oldBase: Path, newBase: Path, now: int, s: Path)
    requires MerkleBuild.CheckTreeParents(t) && oldBase in t.dirs && oldBase != [] && Renamed(t, oldBase, newBase, now).0 == OK
    ensures var r := Renamed(t, oldBase, newBase, now).1;
      && oldBase + s !in r.files && oldBase + s !in r.dirs
      && (newBase + s in r.files <==> oldBase + s in t.files) && (newBase + s in r.dirs <==> oldBase + s in t.dirs)
      && (oldBase + s in t.files ==> r.files[newBase + s] == t.files[oldBase + s].(changedAt := now))
      && (oldBase + s in t.dirs ==> r.dirs[newBase + s] == t.dirs[oldBase + s].(modifiedAt := now, changedAt := now))
  {
    RenameStart(t, oldBase, newBase, now);
    SuffixMoved(oldBase, newBase, s);
    SuffixMoved(newBase, oldBase, s);
    var moved := MovedTree(t, oldBase, newBase, now);
    TouchKeeps(moved, Parent(oldBase), now);
    TouchKeeps(Touch(moved, Parent(oldBase), now), Parent(newBase), now);
    if newBase <= oldBase + s {
      Comparable(oldBase, newBase, oldBase + s);
    }
  }

  /** A parent is stamped, and nothing else. */
  lemma TouchShows(t: Tree, dir: Path, now: int, p: Path)
    ensures var r := Touch(t, dir, now);
      && r.files == t.files && r.chunks == t.chunks && r.releases == t.releases && (p in r.dirs <==> p in t.dirs)
      && (p in t.dirs ==>
        r.dirs[p] == if p != [] && p == dir then t.dirs[p].(modifiedAt := now, changedAt := now) else t.dirs[p])
      && r.root == if dir == [] then t.root.(modifiedAt := now, changedAt := now) else t.root
  {
  }

  lemma MovedLeaves(t: Tree, oldBase: Path, newBase: Path, now: int, p: Path)
    requires !(oldBase <= p) && !(newBase <= p)
    ensures var r := MovedTree(t, oldBase, newBase, now);
      && (p in r.files <==> p in t.files) && (p in r.dirs <==> p in t.dirs)
      && (p in t.files ==> r.files[p] == t.files[p]) && (p in t.dirs ==> r.dirs[p] == t.dirs[p])
  {
  }

  /** Everything else stays, but for the times of the two parents. */
  lemma RenameLeaves(t: Tree, oldBase: Path, newBase: Path, now: int, p: Path)
    requires MerkleBuild.CheckTreeParents(t) && oldBase in t.dirs && oldBase != [] && Renamed(t, oldBase, newBase, now).0 == OK
    requires !(oldBase <= p) && !(newBase <= p)
    ensures var r := Renamed(t, oldBase, newBase, now).1;
      && (p in r.files <==> p in t.files) && (p in r.dirs <==> p in t.dirs)
      && (p in t.files ==> r.files[p] == t.files[p])
      && (p in t.dirs ==>
        r.dirs[p] == if p != [] && (p == oldBase[..|oldBase| - 1] || p == newBase[..|newBase| - 1])
          then t.dirs[p].(modifiedAt := now, changedAt := now) else t.dirs[p])
      && r.root == (if |oldBase| == 1 || |newBase| == 1 then t.root.(modifiedAt := now, changedAt := now) else t.root)
      && r.chunks == t.chunks && r.releases == t.releases
  {
    RenameStart(t, oldBase, newBase, now);
    var moved := MovedTree(t, oldBase, newBase, now);
    MovedLeaves(t, oldBase, newBase, now, p);
    TouchShows(moved, Parent(oldBase), now, p);
    TouchShows(Touch(moved, Parent(oldBase), now), Parent(newBase), now, p);
  }

  predicate EntryKept(t: Tree, r: Tree, oldBase: Path, newBase: Path, now: int, p: Path) {
    var q := RemapPath(oldBase, newBase, p);
    && (p in t.files ==> q in r.files && r.files[q] == if oldBase <= p then t.files[p].(changedAt := now) else t.files[p])
    && (p in t.dirs && p != newBase ==>
      q in r.dirs && r.dirs[q].(modifiedAt := 0, changedAt := 0) == t.dirs[p].(modifiedAt := 0, changedAt := 0))
    && (p in t.dirs && p != newBase && !(oldBase <= p) && p != Parent(oldBase) && p != Parent(newBase) ==> r.dirs[p] == t.dirs[p])
    && (p in r.files ==> RemapPath(newBase, oldBase, p) in t.files)
    && (p in r.dirs ==> RemapPath(newBase, oldBase, p) in t.dirs)
    && (p in r.files || p in r.dirs ==> !(oldBase <= p))
  }

  /** Every file is still there, itself but for its change time if it moved; so is every directory
      but for its times, except an empty one the subtree replaced. Nothing else is stored. */
  lemma RenameKeepsEntries(t: Tree, oldBase: Path, newBase: Path, now: int, p: Path)
    requires MerkleBuild.CheckTreeParents(t) && oldBase in t.dirs && oldBase != [] && Renamed(t, oldBase, newBase, now).0 == OK
    ensures EntryKept(t, Renamed(t, oldBase, newBase, now).1, oldBase, newBase, now, p)
  {
    RenameStart(t, oldBase, newBase, now);
    var moved, q := MovedTree(t, oldBase, newBase, now), RemapPath(oldBase, newBase, p);
    TouchKeeps(moved, Parent(oldBase), now);
    TouchKeeps(Touch(moved, Parent(oldBase), now), Parent(newBase), now);
    if oldBase <= p {
      RemapBack(oldBase, newBase, p);
      if newBase <= p {
        Comparable(oldBase, newBase, p);
      }
    }
  }

  lemma Comparable(a: Path, b: Path, p: Path)
    requires a <= p && b <= p
    ensures a <= b || b <= a
  {
    assert a == p[..|a|] && b == p[..|b|];
  }

  /** The same entry on both sides, but for its times. */
  predicate SameEntry(a: Tree, b: Tree, p: Path) {
    && (p in a.files <==> p in b.files) && (p in a.dirs <==> p in b.dirs)
    && (p in a.files && p in b.files ==> a.files[p].(changedAt := 0) == b.files[p].(changedAt := 0))
    && (p in a.dirs && p in b.dirs ==>
      a.dirs[p].(modifiedAt := 0, changedAt := 0) == b.dirs[p].(modifiedAt := 0, changedAt := 0))
  }

  /** Renaming back restores every name, and every entry but for its times. */
  lemma RenameBack(t: Tree, oldBase: Path, newBase: Path, now: int, later: int)
    requires MerkleBuild.CheckTreeParents(t) && oldBase in t.dirs && oldBase != [] && ParentStored(t, newBase) && newBase !in t.dirs
    requires Renamed(t, oldBase, newBase, now).0 == OK
    ensures Renamed(Renamed(t, oldBase, newBase, now).1, newBase, oldBase, later).0 == OK
    ensures forall p :: SameEntry(t, Renamed(Renamed(t, oldBase, newBase, now).1, newBase, oldBase, later).1, p)
  {
    var there := Renamed(t, oldBase, newBase, now).1;
    BackAllowed(t, oldBase, newBase, now, later, there);
    forall p ensures SameEntry(t, Renamed(there, newBase, oldBase, later).1, p) {
      SameBack(t, oldBase, newBase, now, later, there, p);
    }
  }

  lemma SameBack(t: Tree, oldBase: Path, newBase: Path, now: int, later: int, there: Tree, p: Path)
    requires Between(t, oldBase, newBase, now, later, there)
    ensures SameEntry(t, Renamed(there, newBase, oldBase, later).1, p)
  {
    BackForth(t, oldBase, newBase, now, later, there, p);
    BackOnly(t, oldBase, newBase, now, later, there, p);
  }

  /** The tree between the two renames. */
  ghost predicate Between(t: Tree, oldBase: Path, newBase: Path, now: int, later: int, there: Tree) {
    && MerkleBuild.CheckTreeParents(t) && oldBase in t.dirs && oldBase != [] && newBase != [] && newBase !in t.dirs
    && Renamed(t, oldBase, newBase, now) == (OK, there)
    && MerkleBuild.CheckTreeParents(there) && newBase in there.dirs && oldBase !in there.dirs
    && Renamed(there, newBase, oldBase, later).0 == OK
    && (forall p :: p in t.files || p in t.dirs ==> !(newBase <= p))
  }

  lemma BackAllowed(t: Tree, oldBase: Path, newBase: Path, now: int, later: int, there: Tree)
    requires MerkleBuild.CheckTreeParents(t) && oldBase in t.dirs && oldBase != [] && ParentStored(t, newBase) && newBase !in t.dirs
    requires Renamed(t, oldBase, newBase, now) == (OK, there)
    ensures Between(t, oldBase, newBase, now, later, there)
  {
    RenameKeepsTree(t, oldBase, newBase, now);
    RenameStart(t, oldBase, newBase, now);
    OldIsGone(t, oldBase, newBase, now);
    assert t.dirs - {newBase} == t.dirs;
  }

  lemma OldIsGone(t: Tree, oldBase: Path, newBase: Path, now: int)
    requires MerkleBuild.CheckTreeParents(t) && oldBase in t.dirs && oldBase != [] && newBase !in t.dirs
    requires Renamed(t, oldBase, newBase, now).0 == OK
    ensures var there := Renamed(t, oldBase, newBase, now).1;
      newBase in there.dirs && oldBase !in there.dirs && oldBase !in there.files
  {
    RemapBase(oldBase, newBase);
    RenameKeepsEntries(t, oldBase, newBase, now, oldBase);
  }

  lemma RemapBase(oldBase: Path, newBase: Path)
    ensures RemapPath(oldBase, newBase, oldBase) == newBase
  {
    assert oldBase[|oldBase|..] == [];
  }

  lemma BackForth(t: Tree, oldBase: Path, newBase: Path, now: int, later: int, there: Tree, p: Path)
    requires Between(t, oldBase, newBase, now, later, there)
    ensures var back := Renamed(there, newBase, oldBase, later).1;
      && (p in t.files ==> p in back.files && back.files[p].(changedAt := 0) == t.files[p].(changedAt := 0))
      && (p in t.dirs ==>
        p in back.dirs && back.dirs[p].(modifiedAt := 0, changedAt := 0) == t.dirs[p].(modifiedAt := 0, changedAt := 0))
  {
    var q := RemapPath(oldBase, newBase, p);
    RenameKeepsEntries(t, oldBase, newBase, now, p);
    RenameKeepsEntries(there, newBase, oldBase, later, q);
    if oldBase <= p {
      RemapBack(oldBase, newBase, p);
    }
  }

  lemma BackOnly(t: Tree, oldBase: Path, newBase: Path, now: int, later: int, there: Tree, p: Path)
    requires Between(t, oldBase, newBase, now, later, there)
    ensures var back := Renamed(there, newBase, oldBase, later).1;
      (p in back.files ==> p in t.files) && (p in back.dirs ==> p in t.dirs)
  {
    var q := RemapPath(oldBase, newBase, p);
    RenameKeepsEntries(there, newBase, oldBase, later, p);
    RenameKeepsEntries(t, oldBase, newBase, now, q);
    if oldBase <= p {
      RemapBack(oldBase, newBase, p);
    }
  }
}
