/** Serializing a tree into content-addressed objects, deepest directories first, skipping
    what the build cache proves unchanged. */
module MerkleBuild {
  import opened Options
  import opened RepoTree
  import opened MerkleObjects

  datatype CachedNode = CachedNode(meta: DirMeta, files: map<string, FileMeta>, subdirs: map<string, Sha>, sha: Sha)
  datatype CachedBucket = CachedBucket(chunks: map<int, ChunkInfo>, sha: Sha)
  datatype CachedReleases = CachedReleases(releases: map<string, ReleaseRef>, sha: Sha)

  /** The caller's side of a build: it stores each object as it comes, or fails. */
  class Emitter {
    var objects: map<Sha, Data>
    var refused: bool

    constructor ()
      ensures objects == map[] && !refused
    {
      objects, refused := map[], false;
    }

    method Emit(sha: Sha, data: Data) returns (ok: bool)
      modifies this
      ensures objects == if ok then old(objects)[sha := data] else old(objects)
      ensures refused == (old(refused) || !ok)
    {
      ok := *;
      if ok {
        objects := objects[sha := data];
      } else {
        refused := true;
      }
    }
  }

  class TreeCache {
    var nodes: map<Path, CachedNode>
    var buckets: map<int, CachedBucket>
    var releases: Option<CachedReleases>

    constructor ()
      ensures nodes == map[] && buckets == map[] && releases == None
    {
      nodes, buckets, releases := map[], map[], None;
    }

    /** An isolated copy for one build attempt. */
    method Clone() returns (out: TreeCache)
      ensures fresh(out) && out.nodes == nodes && out.buckets == buckets && out.releases == releases
    {
      out := new TreeCache();
      out.nodes := nodes;
      out.buckets := buckets;
      out.releases := releases;
    }

    /** Every entry carries the address of the object it describes. */
    ghost predicate Sound(c: Codec)
      reads this
    {
      && (forall p :: p in nodes ==> nodes[p].sha == NodeSha(c, CachedTreeNode(nodes[p])))
      && (forall i :: i in buckets ==> buckets[i].sha == c.hash(c.encBucket(ChunkBucket(i, buckets[i].chunks))))
      && (releases.Some? ==> releases.value.sha == c.hash(c.encReleases(releases.value.releases)))
    }

    /** A cache hit means: already stored. */
    ghost predicate Stored(store: set<Sha>)
      reads this
    {
      && (forall p :: p in nodes ==> nodes[p].sha in store)
      && (forall i :: i in buckets ==> buckets[i].sha in store)
      && (releases.Some? ==> releases.value.sha in store)
    }
  }

  function CachedTreeNode(cn: CachedNode): TreeNode {
    TreeNode(cn.meta, cn.files, cn.subdirs)
  }

  /** What is stored under an address has that address. */
  ghost predicate HonestStore(c: Codec, store: map<Sha, Data>) {
    forall s :: s in store ==> c.hash(store[s]) == s
  }

  // ----- checkTreeParents, sortedTreeDirs

  /** Every parent is stored, and no path is both a file and a directory. */
  predicate CheckTreeParents(t: Tree) {
    && (forall p :: p in t.files && Parent(p) != [] ==> Parent(p) in t.dirs)
    && (forall p :: p in t.dirs && Parent(p) != [] ==> Parent(p) in t.dirs)
    && (forall p :: p in t.files ==> p !in t.dirs && p != [])
  }

  lemma {:induction false} AncestorStored(t: Tree, p: Path, i: nat)
    requires CheckTreeParents(t) && (p in t.files || p in t.dirs) && 0 < i < |p|
    ensures p[..i] in t.dirs
    decreases |p|
  {
    if i < |p| - 1 {
      AncestorStored(t, Parent(p), i);
      assert Parent(p)[..i] == p[..i];
    }
  }

  /** The check looks one level up, and accepts exactly the trees in which every ancestor of every
      entry is a stored directory and no path is both a file and a directory: those one can walk. */
  lemma CheckedIffWalkable(t: Tree)
    ensures CheckTreeParents(t) <==>
      && (forall p, i :: (p in t.files || p in t.dirs) && 0 < i < |p| ==> p[..i] in t.dirs && p[..i] !in t.files)
      && (forall p :: p in t.files ==> p !in t.dirs && p != [])
  {
    if CheckTreeParents(t) {
      forall p, i | (p in t.files || p in t.dirs) && 0 < i < |p| ensures p[..i] in t.dirs {
        AncestorStored(t, p, i);
      }
    } else {
      forall p | (p in t.files || p in t.dirs) && Parent(p) != [] ensures p != [] && p[..|p| - 1] == Parent(p) && 0 < |p| - 1 {
        ParentNotRoot(p);
      }
    }
  }

  lemma ParentNotRoot(p: Path)
    requires Parent(p) != []
    ensures p != [] && p[..|p| - 1] == Parent(p) && 0 < |p| - 1
  {
  }

  predicate DeepestFirst(dirs: seq<Path>) {
    forall i, j :: 0 <= i < j < |dirs| ==> |dirs[i]| >= |dirs[j]|
  }

  /** The root and every stored directory, deepest first. */
  method SortedTreeDirs(t: Tree) returns (dirs: seq<Path>)
    ensures DeepestFirst(dirs)
    ensures forall d :: d in dirs <==> d == [] || d in t.dirs
  {
    dirs := [[]];
    var rest := t.dirs.Keys;
    while rest != {}
      invariant DeepestFirst(dirs) && rest <= t.dirs.Keys
      invariant forall d :: d in dirs <==> d == [] || d in t.dirs.Keys - rest
      decreases |rest|
    {
      var p :| p in rest;
      dirs := InsertByDepth(dirs, p);
      rest := rest - {p};
    }
  }

  method InsertByDepth(dirs: seq<Path>, p: Path) returns (out: seq<Path>)
    requires DeepestFirst(dirs)
    ensures DeepestFirst(out) && forall d :: d in out <==> d in dirs || d == p
  {
    var i := 0;
    while i < |dirs| && |dirs[i]| > |p|
      invariant 0 <= i <= |dirs|
      invariant forall k :: 0 <= k < i ==> |dirs[k]| > |p|
    {
      i := i + 1;
    }
    out := dirs[..i] + [p] + dirs[i..];
    assert dirs == dirs[..i] + dirs[i..];
    InsertedByDepth(dirs, i, p);
  }

  lemma InsertedByDepth(dirs: seq<Path>, i: nat, p: Path)
    requires i <= |dirs| && DeepestFirst(dirs) && (forall k :: 0 <= k < i ==> |dirs[k]| > |p|)
    requires i < |dirs| ==> |dirs[i]| <= |p|
    ensures DeepestFirst(dirs[..i] + [p] + dirs[i..])
  {
    var out := dirs[..i] + [p] + dirs[i..];
    forall a, b | 0 <= a < b < |out| ensures |out[a]| >= |out[b]| {
      assert out[a] == (if a < i then dirs[a] else if a == i then p else dirs[a - 1]);
      assert out[b] == (if b < i then dirs[b] else if b == i then p else dirs[b - 1]);
    }
  }

  // ----- what the cache spares

  /** The entries for these directories describe their nodes in this tree. */
  ghost predicate NodesFit(c: Codec, t: Tree, nodes: map<Path, CachedNode>, dirs: seq<Path>) {
    forall d :: d in dirs ==> NodeFits(c, t, nodes, d)
  }

  ghost predicate NodeFits(c: Codec, t: Tree, nodes: map<Path, CachedNode>, d: Path) {
    (d == [] || d in t.dirs) && d in nodes && CachedTreeNode(nodes[d]) == NodeOf(c, t, d)
  }

  ghost predicate BucketsFit(t: Tree, buckets: map<int, CachedBucket>, idx: seq<int>) {
    forall i :: i in idx ==> i in buckets && buckets[i].chunks == BucketOf(t, i).chunks
  }

  ghost predicate ReleasesFit(releases: map<string, ReleaseRef>, cached: Option<CachedReleases>) {
    cached.Some? && cached.value.releases == releases
  }

  /** The cache describes this tree: as after a build of it. */
  ghost predicate Describes(c: Codec, t: Tree, cache: TreeCache)
    reads cache
  {
    && (forall d :: d == [] || d in t.dirs ==> NodeFits(c, t, cache.nodes, d))
    && (forall i :: i in BucketIndexes(t) ==> i in cache.buckets && cache.buckets[i].chunks == BucketOf(t, i).chunks)
    && ReleasesFit(t.releases, cache.releases)
  }

  lemma NodesFitNext(c: Codec, t: Tree, dirs: seq<Path>, k: nat, was: map<Path, CachedNode>, nodes: map<Path, CachedNode>)
    requires k < |dirs| && NodesFit(c, t, was, dirs[..k]) && NodeFits(c, t, nodes, dirs[k]) && nodes == was[dirs[k] := nodes[dirs[k]]]
    ensures NodesFit(c, t, nodes, dirs[..k + 1])
  {
    TakeNext(dirs, k);
    forall d | d in dirs[..k + 1] ensures NodeFits(c, t, nodes, d) {
      assert d in dirs[..k] || d == dirs[k];
    }
  }

  lemma BucketsFitNext(t: Tree, idx: seq<int>, k: nat, was: map<int, CachedBucket>, buckets: map<int, CachedBucket>)
    requires k < |idx| && BucketsFit(t, was, idx[..k]) && idx[k] in buckets && buckets == was[idx[k] := buckets[idx[k]]]
    requires buckets[idx[k]].chunks == BucketOf(t, idx[k]).chunks
    ensures BucketsFit(t, buckets, idx[..k + 1])
  {
    assert idx[..k + 1] == idx[..k] + [idx[k]];
  }

  // ----- emitTreeNodes

  /** The children map of one directory: absent means none yet. */
  function ChildrenAt(subdirShas: map<Path, map<string, Sha>>, d: Path): map<string, Sha> {
    if d in subdirShas then subdirShas[d] else map[]
  }

  predicate HasChild(subdirShas: map<Path, map<string, Sha>>, p: Path)
    requires p != []
  {
    Base(p) in ChildrenAt(subdirShas, Parent(p))
  }

  function ChildSha(subdirShas: map<Path, map<string, Sha>>, p: Path): Sha
    requires p != [] && HasChild(subdirShas, p)
  {
    ChildrenAt(subdirShas, Parent(p))[Base(p)]
  }

  lemma PathParts(p: Path, q: Path)
    requires p != [] && q != [] && Parent(p) == Parent(q) && Base(p) == Base(q)
    ensures p == q
  {
    assert p == Parent(p) + [Base(p)] && q == Parent(q) + [Base(q)];
  }

  /** Records a directory's node under its parent; the root has no parent. */
  function LinkChild(subdirShas: map<Path, map<string, Sha>>, dir: Path, sha: Sha): (r: map<Path, map<string, Sha>>)
  {
    if dir == [] then subdirShas
    else subdirShas[Parent(dir) := ChildrenAt(subdirShas, Parent(dir))[Base(dir) := sha]]
  }

  lemma LinkChildEffect(subdirShas: map<Path, map<string, Sha>>, dir: Path, sha: Sha, p: Path)
    requires p != []
    ensures var r := LinkChild(subdirShas, dir, sha);
      && (HasChild(r, p) <==> HasChild(subdirShas, p) || dir == p)
      && (HasChild(r, p) ==> ChildSha(r, p) == if dir == p then sha else ChildSha(subdirShas, p))
  {
    if dir != [] && Parent(dir) == Parent(p) && Base(dir) == Base(p) {
      PathParts(dir, p);
    }
  }

  /** After the first `k` directories: exactly their nodes are linked under their parents. */
  ghost predicate Linked(c: Codec, t: Tree, done: seq<Path>, subdirShas: map<Path, map<string, Sha>>) {
    forall p: Path | p != [] :: LinkedAt(c, t, done, subdirShas, p)
  }

  ghost predicate LinkedAt(c: Codec, t: Tree, done: seq<Path>, subdirShas: map<Path, map<string, Sha>>, p: Path)
    requires p != []
  {
    && (HasChild(subdirShas, p) <==> p in done)
    && (p in done ==> p in t.dirs && ChildSha(subdirShas, p) == NodeSha(c, NodeOf(c, t, p)))
  }

  /** Deepest first, a directory's children are complete when its turn comes. */
  lemma ChildrenComplete(c: Codec, t: Tree, dirs: seq<Path>, k: nat, subdirShas: map<Path, map<string, Sha>>)
    requires k < |dirs| && DeepestFirst(dirs) && forall d :: d in dirs <==> d == [] || d in t.dirs
    requires Linked(c, t, dirs[..k], subdirShas)
    ensures ChildrenAt(subdirShas, dirs[k]) == SubdirsOf(c, t, dirs[k])
  {
    forall n ensures SameEntry(ChildrenAt(subdirShas, dirs[k]), SubdirsOf(c, t, dirs[k]), n) {
      ChildComplete(c, t, dirs, k, subdirShas, n);
    }
    SameMap(ChildrenAt(subdirShas, dirs[k]), SubdirsOf(c, t, dirs[k]));
  }

  ghost predicate SameEntry(a: map<string, Sha>, b: map<string, Sha>, n: string) {
    (n in a <==> n in b) && (n in a && n in b ==> a[n] == b[n])
  }

  lemma SameMap(a: map<string, Sha>, b: map<string, Sha>)
    requires forall n :: SameEntry(a, b, n)
    ensures a == b
  {
    assert forall n :: SameEntry(a, b, n) ==> (n in a <==> n in b);
  }

  lemma ChildComplete(c: Codec, t: Tree, dirs: seq<Path>, k: nat, subdirShas: map<Path, map<string, Sha>>, n: string)
    requires k < |dirs| && DeepestFirst(dirs) && forall d :: d in dirs <==> d == [] || d in t.dirs
    requires Linked(c, t, dirs[..k], subdirShas)
    ensures SameEntry(ChildrenAt(subdirShas, dirs[k]), SubdirsOf(c, t, dirs[k]), n)
  {
    var p := dirs[k] + [n];
    assert Parent(p) == dirs[k] && Base(p) == n;
    assert LinkedAt(c, t, dirs[..k], subdirShas, p);
    assert HasChild(subdirShas, p) <==> n in ChildrenAt(subdirShas, dirs[k]);
    if p in t.dirs {
      var i :| 0 <= i < |dirs| && dirs[i] == p;
      assert i < k && dirs[..k][i] == p;
    }
  }

  lemma LinkNext(c: Codec, t: Tree, done: seq<Path>, d: Path, subdirShas: map<Path, map<string, Sha>>, sha: Sha)
    requires (d == [] || d in t.dirs) && sha == NodeSha(c, NodeOf(c, t, d))
    requires Linked(c, t, done, subdirShas)
    ensures Linked(c, t, done + [d], LinkChild(subdirShas, d, sha))
  {
    forall p: Path | p != [] ensures LinkedAt(c, t, done + [d], LinkChild(subdirShas, d, sha), p) {
      LinkOne(c, t, done, d, subdirShas, sha, p);
    }
  }

  lemma LinkOne(c: Codec, t: Tree, done: seq<Path>, d: Path, subdirShas: map<Path, map<string, Sha>>, sha: Sha, p: Path)
    requires (d == [] || d in t.dirs) && sha == NodeSha(c, NodeOf(c, t, d))
    requires p != [] && LinkedAt(c, t, done, subdirShas, p)
    ensures LinkedAt(c, t, done + [d], LinkChild(subdirShas, d, sha), p)
  {
    LinkChildEffect(subdirShas, d, sha, p);
    assert p in done + [d] <==> p in done || p == d;
  }

  // ----- groupFileNamesByParent

  function FilesAt(groups: map<Path, map<string, FileMeta>>, d: Path): map<string, FileMeta> {
    if d in groups then groups[d] else map[]
  }

  /** After the files of `done`: exactly they are in the groups, under their base names. */
  ghost predicate Grouped(t: Tree, done: set<Path>, groups: map<Path, map<string, FileMeta>>) {
    forall p: Path | p != [] ::
      && (Base(p) in FilesAt(groups, Parent(p)) <==> p in done)
      && (p in done ==> p in t.files && FilesAt(groups, Parent(p))[Base(p)] == t.files[p])
  }

  lemma GroupNext(t: Tree, done: set<Path>, groups: map<Path, map<string, FileMeta>>, q: Path)
    requires q != [] && q in t.files && Grouped(t, done, groups)
    ensures Grouped(t, done + {q}, groups[Parent(q) := FilesAt(groups, Parent(q))[Base(q) := t.files[q]]])
  {
    var r := groups[Parent(q) := FilesAt(groups, Parent(q))[Base(q) := t.files[q]]];
    forall p: Path | p != []
      ensures (Base(p) in FilesAt(r, Parent(p)) <==> p in done + {q})
      ensures p in done + {q} ==> p in t.files && FilesAt(r, Parent(p))[Base(p)] == t.files[p]
    {
      if Parent(p) == Parent(q) && Base(p) == Base(q) {
        PathParts(p, q);
      }
    }
  }

  /** The files of each directory, keyed by base name. */
  method GroupFileNamesByParent(t: Tree) returns (groups: map<Path, map<string, FileMeta>>)
    requires CheckTreeParents(t)
    ensures Grouped(t, t.files.Keys, groups)
  {
    groups := map[];
    var rest := t.files.Keys;
    while rest != {}
      invariant rest <= t.files.Keys && Grouped(t, t.files.Keys - rest, groups)
      decreases |rest|
    {
      var p :| p in rest;
      GroupNext(t, t.files.Keys - rest, groups, p);
      assert t.files.Keys - (rest - {p}) == t.files.Keys - rest + {p};
      groups := groups[Parent(p) := FilesAt(groups, Parent(p))[Base(p) := t.files[p]]];
      rest := rest - {p};
    }
  }

  lemma GroupIsFiles(t: Tree, groups: map<Path, map<string, FileMeta>>, d: Path)
    requires Grouped(t, t.files.Keys, groups)
    ensures FilesAt(groups, d) == FilesOf(t, d)
  {
    var have, want := FilesAt(groups, d), FilesOf(t, d);
    forall n ensures (n in have <==> n in want) && (n in have && n in want ==> have[n] == want[n]) {
      GroupEntry(t, groups, d, n);
    }
  }

  lemma GroupEntry(t: Tree, groups: map<Path, map<string, FileMeta>>, d: Path, n: string)
    requires Grouped(t, t.files.Keys, groups)
    ensures n in FilesAt(groups, d) <==> n in FilesOf(t, d)
    ensures n in FilesAt(groups, d) && n in FilesOf(t, d) ==> FilesAt(groups, d)[n] == FilesOf(t, d)[n]
  {
    var p := d + [n];
    assert Parent(p) == d && Base(p) == n;
  }

  // ----- emitTreeNodes

  /** Hands an object to the caller unless the caller already has it. */
  method EmitNew(sha: Sha, data: Data, known: set<Sha>, out: Emitter) returns (ok: bool)
    modifies out
    ensures ok ==> out.objects == if sha in known then old(out.objects) else old(out.objects)[sha := data]
    ensures !ok ==> out.objects == old(out.objects) && sha !in known
    ensures out.refused == (old(out.refused) || !ok)
  {
    ok := true;
    if sha !in known {
      ok := out.Emit(sha, data);
    }
  }

  /** One directory's turn: its address, from the cache or freshly built. */
  method EmitNode(c: Codec, d: Path, node: TreeNode, cache: TreeCache?, known: set<Sha>, out: Emitter, ghost store: set<Sha>)
      returns (ok: bool, sha: Sha)
    requires HonestStore(c, out.objects) && known <= store
    requires cache != null ==> cache.Sound(c) && cache.Stored(store + out.objects.Keys)
    modifies out, cache
    ensures out.refused == (old(out.refused) || !ok)
    ensures HonestStore(c, out.objects) && old(out.objects).Keys <= out.objects.Keys
    ensures cache != null ==> cache.Sound(c)
    ensures cache != null ==> cache.buckets == old(cache.buckets) && cache.releases == old(cache.releases)
    ensures sha == NodeSha(c, node)
    ensures ok ==> sha in store + out.objects.Keys
    ensures ok && cache != null ==> cache.Stored(store + out.objects.Keys)
    ensures cache != null ==>
      && d in cache.nodes && CachedTreeNode(cache.nodes[d]) == node && cache.nodes == old(cache.nodes)[d := cache.nodes[d]]
    ensures cache != null && d in old(cache.nodes) && CachedTreeNode(old(cache.nodes)[d]) == node ==>
      ok && out.objects == old(out.objects) && cache.nodes == old(cache.nodes)
  {
    if cache != null && d in cache.nodes && CachedTreeNode(cache.nodes[d]) == node {
      return true, cache.nodes[d].sha;
    }
    var data := c.encNode(node);
    sha := c.hash(data);
    if cache != null {
      cache.nodes := cache.nodes[d := CachedNode(node.meta, node.files, node.subdirs, sha)];
    }
    ok := EmitNew(sha, data, known, out);
  }

  /** Builds every directory node, deepest first. With or without a cache the addresses are
      those of the tree, and every node is stored upstream or handed over. */
  method EmitTreeNodes(c: Codec, t: Tree, cache: TreeCache?, known: set<Sha>, out: Emitter, dirs: seq<Path>,
                       groups: map<Path, map<string, FileMeta>>, ghost store: set<Sha>)
      returns (ok: bool, nodeSha: map<Path, Sha>)
    requires HonestStore(c, out.objects) && known <= store
    requires cache != null ==> cache.Sound(c) && cache.Stored(store + out.objects.Keys)
    requires DeepestFirst(dirs) && (forall d :: d in dirs <==> d == [] || d in t.dirs) && Grouped(t, t.files.Keys, groups)
    modifies out, cache
    ensures out.refused == (old(out.refused) || !ok)
    ensures HonestStore(c, out.objects) && old(out.objects).Keys <= out.objects.Keys
    ensures cache != null ==> cache.Sound(c)
    ensures cache != null ==> cache.buckets == old(cache.buckets) && cache.releases == old(cache.releases)
    ensures ok && cache != null ==> cache.Stored(store + out.objects.Keys)
    ensures ok ==> Built(c, t, dirs, nodeSha, store + out.objects.Keys)
    ensures ok && cache != null ==> NodesFit(c, t, cache.nodes, dirs)
    ensures cache != null && NodesFit(c, t, old(cache.nodes), dirs) ==> ok && out.objects == old(out.objects)
  {
    nodeSha := map[];
    var subdirShas: map<Path, map<string, Sha>> := map[];
    for k := 0 to |dirs|
      invariant HonestStore(c, out.objects) && old(out.objects).Keys <= out.objects.Keys && out.refused == old(out.refused)
      invariant cache != null ==> cache.Sound(c) && cache.Stored(store + out.objects.Keys)
      invariant cache != null ==> cache.buckets == old(cache.buckets) && cache.releases == old(cache.releases)
      invariant Progress(c, t, dirs, k, nodeSha, subdirShas, store + out.objects.Keys)
      invariant cache != null ==> NodesFit(c, t, cache.nodes, dirs[..k])
      invariant cache != null && NodesFit(c, t, old(cache.nodes), dirs) ==>
        out.objects == old(out.objects) && cache.nodes == old(cache.nodes)
    {
      NodeReady(c, t, dirs, k, groups, subdirShas);
      var d := dirs[k];
      var node := TreeNode(DirOf(t, d), FilesAt(groups, d), ChildrenAt(subdirShas, d));
      var sha;
      ghost var have, was := store + out.objects.Keys, if cache == null then map[] else cache.nodes;
      assert cache != null && NodesFit(c, t, old(cache.nodes), dirs) ==> NodeFits(c, t, was, d);
      ok, sha := EmitNode(c, d, node, cache, known, out, store);
      if !ok {
        return;
      }
      if cache != null {
        NodesFitNext(c, t, dirs, k, was, cache.nodes);
      }
      ProgressNext(c, t, dirs, k, groups, nodeSha, subdirShas, sha, have, store + out.objects.Keys);
      nodeSha := nodeSha[d := sha];
      subdirShas := LinkChild(subdirShas, d, sha);
    }
    ok := true;
    assert dirs[..|dirs|] == dirs;
  }

  /** The first `k` directories are built, and linked under their parents. */
  ghost predicate Progress(c: Codec, t: Tree, dirs: seq<Path>, k: nat, nodeSha: map<Path, Sha>,
                           subdirShas: map<Path, map<string, Sha>>, have: set<Sha>) {
    k <= |dirs| && Linked(c, t, dirs[..k], subdirShas) && Built(c, t, dirs[..k], nodeSha, have)
  }

  lemma ProgressNext(c: Codec, t: Tree, dirs: seq<Path>, k: nat, groups: map<Path, map<string, FileMeta>>, nodeSha: map<Path, Sha>,
                     subdirShas: map<Path, map<string, Sha>>, sha: Sha, less: set<Sha>, have: set<Sha>)
    requires k < |dirs| && Progress(c, t, dirs, k, nodeSha, subdirShas, less) && less <= have && sha in have
    requires DeepestFirst(dirs) && (forall d :: d in dirs <==> d == [] || d in t.dirs) && Grouped(t, t.files.Keys, groups)
    requires dirs[k] in dirs
    requires sha == NodeSha(c, TreeNode(DirOf(t, dirs[k]), FilesAt(groups, dirs[k]), ChildrenAt(subdirShas, dirs[k])))
    ensures Progress(c, t, dirs, k + 1, nodeSha[dirs[k] := sha], LinkChild(subdirShas, dirs[k], sha), have)
  {
    var d := dirs[k];
    NodeReady(c, t, dirs, k, groups, subdirShas);
    BuiltNext(c, t, dirs[..k], d, nodeSha, sha, less, have);
    LinkNext(c, t, dirs[..k], d, subdirShas, sha);
    TakeNext(dirs, k);
  }

  lemma TakeNext(dirs: seq<Path>, k: nat)
    requires k < |dirs|
    ensures dirs[..k + 1] == dirs[..k] + [dirs[k]]
  {
  }

  lemma NodeReady(c: Codec, t: Tree, dirs: seq<Path>, k: nat, groups: map<Path, map<string, FileMeta>>,
                  subdirShas: map<Path, map<string, Sha>>)
    requires k < |dirs| && Linked(c, t, dirs[..k], subdirShas) && dirs[k] in dirs
    requires DeepestFirst(dirs) && (forall d :: d in dirs <==> d == [] || d in t.dirs) && Grouped(t, t.files.Keys, groups)
    ensures TreeNode(DirOf(t, dirs[k]), FilesAt(groups, dirs[k]), ChildrenAt(subdirShas, dirs[k])) == NodeOf(c, t, dirs[k])
  {
    ChildrenComplete(c, t, dirs, k, subdirShas);
    GroupIsFiles(t, groups, dirs[k]);
  }

  /** The addresses of the directories of `done`, all of them at hand. */
  ghost predicate Built(c: Codec, t: Tree, done: seq<Path>, nodeSha: map<Path, Sha>, have: set<Sha>) {
    forall d :: d in done ==> BuiltAt(c, t, d, nodeSha, have)
  }

  ghost predicate BuiltAt(c: Codec, t: Tree, d: Path, nodeSha: map<Path, Sha>, have: set<Sha>) {
    && (d == [] || d in t.dirs)
    && d in nodeSha && nodeSha[d] == NodeSha(c, NodeOf(c, t, d)) && nodeSha[d] in have
  }

  lemma BuiltNext(c: Codec, t: Tree, done: seq<Path>, p: Path, nodeSha: map<Path, Sha>, sha: Sha,
                  less: set<Sha>, have: set<Sha>)
    requires (p == [] || p in t.dirs) && sha == NodeSha(c, NodeOf(c, t, p)) && sha in have
    requires less <= have && Built(c, t, done, nodeSha, less)
    ensures Built(c, t, done + [p], nodeSha[p := sha], have)
  {
    forall d | d in done + [p] ensures BuiltAt(c, t, d, nodeSha[p := sha], have) {
      if d != p {
        BuiltGrows(c, t, d, nodeSha, p, sha, less, have);
      }
    }
  }

  lemma BuiltGrows(c: Codec, t: Tree, d: Path, nodeSha: map<Path, Sha>, p: Path, sha: Sha, less: set<Sha>, have: set<Sha>)
    requires d != p && less <= have && BuiltAt(c, t, d, nodeSha, less)
    ensures BuiltAt(c, t, d, nodeSha[p := sha], have)
  {
  }

  // ----- streamChunkBuckets, streamReleases

  /** The bucket numbers of a tree in ascending order. */
  method SortedBucketIndexes(t: Tree) returns (idx: seq<int>)
    ensures Ascending(idx) && forall i :: i in idx <==> i in BucketIndexes(t)
  {
    idx := [];
    var rest := t.chunks.Items;
    while rest != {}
      invariant Ascending(idx) && rest <= t.chunks.Items
      invariant forall i :: i in idx <==> exists item :: item in t.chunks.Items - rest && BucketIndex(item.0) == i
      decreases |rest|
    {
      var item :| item in rest;
      idx := InsertAscending(idx, BucketIndex(item.0));
      rest := rest - {item};
    }
    forall i ensures i in idx <==> i in BucketIndexes(t) {
      if i in BucketIndexes(t) {
        var id :| id in t.chunks && BucketIndex(id) == i;
        assert (id, t.chunks[id]) in t.chunks.Items - rest;
      }
    }
  }

  method InsertAscending(s: seq<int>, x: int) returns (out: seq<int>)
    requires Ascending(s)
    ensures Ascending(out) && forall y :: y in out <==> y in s || y == x
  {
    var i := 0;
    while i < |s| && s[i] < x
      invariant 0 <= i <= |s|
      invariant forall k :: 0 <= k < i ==> s[k] < x
    {
      i := i + 1;
    }
    assert s == s[..i] + s[i..];
    if i < |s| && s[i] == x {
      return s;
    }
    out := s[..i] + [x] + s[i..];
    forall y ensures y in out <==> y in s || y == x {
    }
  }

  /** One bucket's turn. */
  method EmitBucket(c: Codec, b: ChunkBucket, cache: TreeCache?, known: set<Sha>, out: Emitter, ghost store: set<Sha>)
      returns (ok: bool, sha: Sha)
    requires HonestStore(c, out.objects) && known <= store
    requires cache != null ==> cache.Sound(c) && cache.Stored(store + out.objects.Keys)
    modifies out, cache
    ensures out.refused == (old(out.refused) || !ok)
    ensures HonestStore(c, out.objects) && old(out.objects).Keys <= out.objects.Keys
    ensures cache != null ==> cache.Sound(c)
    ensures sha == c.hash(c.encBucket(b))
    ensures ok ==> sha in store + out.objects.Keys
    ensures ok && cache != null ==> cache.Stored(store + out.objects.Keys)
    ensures cache != null ==> cache.nodes == old(cache.nodes) && cache.releases == old(cache.releases)
    ensures cache != null ==>
      b.index in cache.buckets && cache.buckets[b.index].chunks == b.chunks
      && cache.buckets == old(cache.buckets)[b.index := cache.buckets[b.index]]
    ensures cache != null && b.index in old(cache.buckets) && old(cache.buckets)[b.index].chunks == b.chunks ==>
      ok && out.objects == old(out.objects) && cache.buckets == old(cache.buckets)
  {
    if cache != null && b.index in cache.buckets && cache.buckets[b.index].chunks == b.chunks {
      return true, cache.buckets[b.index].sha;
    }
    var data := c.encBucket(b);
    sha := c.hash(data);
    if cache != null {
      cache.buckets := cache.buckets[b.index := CachedBucket(b.chunks, sha)];
    }
    ok := EmitNew(sha, data, known, out);
  }

  method StreamChunkBuckets(c: Codec, t: Tree, cache: TreeCache?, known: set<Sha>, out: Emitter, ghost store: set<Sha>)
      returns (ok: bool, idx: seq<int>, shas: seq<Sha>)
    requires HonestStore(c, out.objects) && known <= store
    requires cache != null ==> cache.Sound(c) && cache.Stored(store + out.objects.Keys)
    modifies out, cache
    ensures out.refused == (old(out.refused) || !ok)
    ensures HonestStore(c, out.objects) && old(out.objects).Keys <= out.objects.Keys
    ensures cache != null ==> cache.Sound(c)
    ensures ok && cache != null ==> cache.Stored(store + out.objects.Keys)
    ensures Ascending(idx) && forall i :: i in idx <==> i in BucketIndexes(t)
    ensures ok ==> BucketShas(c, t, idx, shas) && forall i :: 0 <= i < |shas| ==> shas[i] in store + out.objects.Keys
    ensures cache != null ==> cache.nodes == old(cache.nodes) && cache.releases == old(cache.releases)
    ensures ok && cache != null ==> BucketsFit(t, cache.buckets, idx)
    ensures cache != null && BucketsFit(t, old(cache.buckets), idx) ==> ok && out.objects == old(out.objects)
  {
    idx := SortedBucketIndexes(t);
    shas := [];
    for k := 0 to |idx|
      invariant HonestStore(c, out.objects) && old(out.objects).Keys <= out.objects.Keys && out.refused == old(out.refused)
      invariant cache != null ==> cache.Sound(c) && cache.Stored(store + out.objects.Keys)
      invariant BucketShas(c, t, idx[..k], shas) && forall i :: 0 <= i < |shas| ==> shas[i] in store + out.objects.Keys
      invariant cache != null ==> cache.nodes == old(cache.nodes) && cache.releases == old(cache.releases)
      invariant cache != null ==> BucketsFit(t, cache.buckets, idx[..k])
      invariant cache != null && BucketsFit(t, old(cache.buckets), idx) ==>
        out.objects == old(out.objects) && cache.buckets == old(cache.buckets)
    {
      var sha;
      ghost var was := if cache == null then map[] else cache.buckets;
      assert idx[k] in idx;
      ok, sha := EmitBucket(c, BucketOf(t, idx[k]), cache, known, out, store);
      if !ok {
        return;
      }
      if cache != null {
        BucketsFitNext(t, idx, k, was, cache.buckets);
      }
      shas := shas + [sha];
    }
    ok := true;
    assert idx[..|idx|] == idx;
  }

  method StreamReleases(c: Codec, releases: map<string, ReleaseRef>, cache: TreeCache?, known: set<Sha>, out: Emitter,
                        ghost store: set<Sha>)
      returns (ok: bool, sha: Sha)
    requires HonestStore(c, out.objects) && known <= store
    requires cache != null ==> cache.Sound(c) && cache.Stored(store + out.objects.Keys)
    modifies out, cache
    ensures out.refused == (old(out.refused) || !ok)
    ensures HonestStore(c, out.objects) && old(out.objects).Keys <= out.objects.Keys
    ensures cache != null ==> cache.Sound(c)
    ensures ok && cache != null ==> cache.Stored(store + out.objects.Keys)
    ensures sha == c.hash(c.encReleases(releases))
    ensures ok ==> sha in store + out.objects.Keys
    ensures cache != null ==> cache.nodes == old(cache.nodes) && cache.buckets == old(cache.buckets)
    ensures cache != null ==> ReleasesFit(releases, cache.releases)
    ensures cache != null && ReleasesFit(releases, old(cache.releases)) ==> ok && out.objects == old(out.objects)
  {
    if cache != null && cache.releases.Some? && cache.releases.value.releases == releases {
      return true, cache.releases.value.sha;
    }
    var data := c.encReleases(releases);
    sha := c.hash(data);
    if cache != null {
      cache.releases := Some(CachedReleases(releases, sha));
    }
    ok := EmitNew(sha, data, known, out);
  }

  // ----- buildTreeStream

  /** Every object the references reach is at hand. */
  ghost predicate AllObjects(c: Codec, t: Tree, have: set<Sha>) {
    && (forall d :: d == [] || d in t.dirs ==> NodeSha(c, NodeOf(c, t, d)) in have)
    && (forall i :: i in BucketIndexes(t) ==> c.hash(c.encBucket(BucketOf(t, i))) in have)
    && c.hash(c.encReleases(t.releases)) in have
  }

  /** The nodes, the buckets and the catalog together are what the references reach. */
  lemma Assembled(c: Codec, t: Tree, dirs: seq<Path>, nodeSha: map<Path, Sha>, built: set<Sha>, idx: seq<int>, refs: TreeRefs,
                  have: set<Sha>)
    requires forall d :: d in dirs <==> d == [] || d in t.dirs
    requires Built(c, t, dirs, nodeSha, built) && built <= have && refs.rootSha == (if [] in nodeSha then nodeSha[[]] else "")
    requires Ascending(idx) && (forall i :: i in idx <==> i in BucketIndexes(t)) && BucketShas(c, t, idx, refs.chunkBuckets)
    requires forall i :: 0 <= i < |refs.chunkBuckets| ==> refs.chunkBuckets[i] in have
    requires refs.releasesSha == c.hash(c.encReleases(t.releases)) && refs.releasesSha in have
    ensures IsRefs(c, t, refs) && AllObjects(c, t, have)
  {
    assert BuiltAt(c, t, [], nodeSha, built);
    forall d | d == [] || d in t.dirs ensures NodeSha(c, NodeOf(c, t, d)) in have {
      assert BuiltAt(c, t, d, nodeSha, built);
    }
    forall i | i in BucketIndexes(t) ensures c.hash(c.encBucket(BucketOf(t, i))) in have {
      assert i in idx;
      var k :| 0 <= k < |idx| && idx[k] == i;
      assert refs.chunkBuckets[k] in have;
    }
  }

  /** The build. Whatever the cache and the known objects let it skip, the references are those
      of the tree, and everything they reach is stored upstream or was handed over. A failed
      build may have left entries in the cache for objects nobody has. */
  method BuildTreeStream(c: Codec, t: Tree, cache: TreeCache?, known: set<Sha>, out: Emitter, ghost store: set<Sha>)
      returns (ok: bool, refs: TreeRefs)
    requires HonestStore(c, out.objects) && known <= store
    requires cache != null ==> cache.Sound(c) && cache.Stored(store + out.objects.Keys)
    modifies out, cache
    ensures !CheckTreeParents(t) ==> !ok && out.objects == old(out.objects) && out.refused == old(out.refused)
    ensures CheckTreeParents(t) ==> out.refused == (old(out.refused) || !ok)
    ensures HonestStore(c, out.objects) && old(out.objects).Keys <= out.objects.Keys
    ensures cache != null ==> cache.Sound(c)
    ensures ok ==> CheckTreeParents(t) && IsRefs(c, t, refs) && AllObjects(c, t, store + out.objects.Keys)
    ensures ok && cache != null ==> cache.Stored(store + out.objects.Keys)
    // A build leaves a cache that describes its tree, and with such a cache hands nothing over.
    ensures ok && cache != null ==> Describes(c, t, cache)
    ensures CheckTreeParents(t) && cache != null && old(Describes(c, t, cache)) ==> ok && out.objects == old(out.objects)
  {
    refs := TreeRefs("", [], "");
    if !CheckTreeParents(t) {
      return false, refs;
    }
    var groups := GroupFileNamesByParent(t);
    var dirs := SortedTreeDirs(t);
    var nodeSha;
    ok, nodeSha := EmitTreeNodes(c, t, cache, known, out, dirs, groups, store);
    if !ok {
      return;
    }
    ghost var built := store + out.objects.Keys;
    var idx, shas;
    ok, idx, shas := StreamChunkBuckets(c, t, cache, known, out, store);
    if !ok {
      return;
    }
    var releasesSha;
    ok, releasesSha := StreamReleases(c, t.releases, cache, known, out, store);
    if !ok {
      return;
    }
    refs := TreeRefs(if [] in nodeSha then nodeSha[[]] else "", shas, releasesSha);
    Assembled(c, t, dirs, nodeSha, built, idx, refs, store + out.objects.Keys);
  }

  /** A build attempt works on a copy, so the cache it started from still only describes stored
      objects, whatever became of the attempt. */
  method BuildOnClone(c: Codec, t: Tree, cache: TreeCache, known: set<Sha>, out: Emitter, ghost store: set<Sha>)
      returns (ok: bool, refs: TreeRefs, next: TreeCache)
    requires HonestStore(c, out.objects) && known <= store
    requires cache.Sound(c) && cache.Stored(store + out.objects.Keys)
    modifies out
    ensures HonestStore(c, out.objects)
    ensures unchanged(cache) && cache.Sound(c) && cache.Stored(store + old(out.objects).Keys)
    ensures !out.refused ==> (ok <==> CheckTreeParents(t))
    ensures ok ==> fresh(next) && next.Sound(c) && next.Stored(store + out.objects.Keys)
    ensures !ok ==> next == cache
    ensures ok ==> CheckTreeParents(t) && IsRefs(c, t, refs) && AllObjects(c, t, store + out.objects.Keys)
    ensures ok ==> Describes(c, t, next)
    ensures CheckTreeParents(t) && Describes(c, t, cache) ==> ok && out.objects == old(out.objects)
  {
    var copy := cache.Clone();
    ok, refs := BuildTreeStream(c, t, copy, known, out, store);
    next := if ok then copy else cache;
  }

  /** Building a tree again right after a build that went through hands nothing over. */
  method BuildTwice(c: Codec, t: Tree, cache: TreeCache, known: set<Sha>, out: Emitter, ghost store: set<Sha>)
      returns (ok: bool, first: TreeRefs, second: TreeRefs, ghost between: map<Sha, Data>)
    requires HonestStore(c, out.objects) && known <= store
    requires cache.Sound(c) && cache.Stored(store + out.objects.Keys)
    modifies out
    ensures ok ==> IsRefs(c, t, first) && second == first
    ensures ok ==> AllObjects(c, t, store + between.Keys) && out.objects == between
  {
    var next;
    ok, first, next := BuildOnClone(c, t, cache, known, out, store);
    between, second := out.objects, first;
    if ok {
      ok, second, next := BuildOnClone(c, t, next, known, out, store);
      RefsUnique(c, t, first, second);
    }
  }
}
