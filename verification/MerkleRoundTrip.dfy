/** What was built loads back. */
module MerkleRoundTrip {
  import opened Options
  import opened RepoTree
  import opened MerkleObjects
  import opened MerkleBuild
  import opened MerkleLoad
  import opened MerkleLoadRuns
  import opened MerkleLoadable

  function ManifestOf(refs: TreeRefs): Manifest {
    Manifest(refs.rootSha, refs.chunkBuckets, refs.releasesSha)
  }

  predicate IsDir(t: Tree, p: Path) {
    p == [] || p in t.dirs
  }

  lemma NodeAtOwnSha(c: Codec, n: TreeNode)
    requires GoodCodec(c)
    ensures NodeAt(c, NodeSha(c, n)) == Some(n)
  {
    ContentIs(c, c.encNode(n));
  }

  lemma ParentIsDir(t: Tree, p: Path)
    requires CheckTreeParents(t) && p in t.dirs
    ensures IsDir(t, Parent(p))
  {
  }

  /** The directory is reached from the built root, at its own node. */
  ghost predicate OwnNode(c: Codec, t: Tree, p: Path)
    requires IsDir(t, p)
  {
    && Reached(c, BuiltRoot(c, t), p) && Last(Walk(c, BuiltRoot(c, t), p).value) == NodeSha(c, NodeOf(c, t, p))
    && NodeOn(c, BuiltRoot(c, t), p) == Some(NodeOf(c, t, p))
  }

  ghost function BuiltRoot(c: Codec, t: Tree): Sha {
    NodeSha(c, NodeOf(c, t, []))
  }

  lemma Rejoin(p: Path)
    requires p != []
    ensures p == Parent(p) + [Base(p)]
  {
  }

  lemma NamedChild(c: Codec, t: Tree, d: Path, n: string)
    requires IsDir(t, d)
    ensures n in NodeOf(c, t, d).subdirs <==> d + [n] in t.dirs
    ensures d + [n] in t.dirs ==> NodeOf(c, t, d).subdirs[n] == NodeSha(c, NodeOf(c, t, d + [n]))
  {
    var subdirs := SubdirsOf(c, t, d);
    assert NodeOf(c, t, d).subdirs == subdirs;
  }

  lemma BuiltChild(c: Codec, t: Tree, up: Path, n: string)
    requires GoodCodec(c) && IsDir(t, up) && OwnNode(c, t, up)
    ensures Reached(c, BuiltRoot(c, t), up + [n]) <==> up + [n] in t.dirs
    ensures up + [n] in t.dirs ==> OwnNode(c, t, up + [n])
  {
    WalkChild(c, BuiltRoot(c, t), up, n);
    NamedChild(c, t, up, n);
    if up + [n] in t.dirs {
      NodeAtOwnSha(c, NodeOf(c, t, up + [n]));
    }
  }

  /** The walk from the built root visits exactly the tree's directories, each at its own node. */
  lemma {:induction false} BuiltWalk(c: Codec, t: Tree, p: Path)
    requires GoodCodec(c) && CheckTreeParents(t)
    ensures Reached(c, BuiltRoot(c, t), p) <==> IsDir(t, p)
    ensures IsDir(t, p) ==> OwnNode(c, t, p)
    decreases |p|
  {
    if p == [] {
      NodeAtOwnSha(c, NodeOf(c, t, []));
    } else {
      BuiltWalk(c, t, Parent(p));
      Rejoin(p);
      if IsDir(t, Parent(p)) {
        BuiltChild(c, t, Parent(p), Base(p));
      } else {
        NotBelow(c, BuiltRoot(c, t), p);
        assert p !in t.dirs;
      }
    }
  }

  lemma NotBelow(c: Codec, root: Sha, p: Path)
    requires p != [] && !Reached(c, root, Parent(p))
    ensures !Reached(c, root, p)
  {
  }

  // ----- no directory is its own ancestor

  ghost predicate SameNode(c: Codec, t: Tree, a: Path, b: Path) {
    IsDir(t, a) && IsDir(t, b) && NodeOf(c, t, a) == NodeOf(c, t, b)
  }

  /** Directories with equal nodes have equal subtrees. */
  lemma {:induction false} SameBelow(c: Codec, t: Tree, a: Path, b: Path, x: Path)
    requires GoodCodec(c) && CheckTreeParents(t) && SameNode(c, t, a, b) && IsDir(t, a + x)
    ensures SameNode(c, t, a + x, b + x)
    decreases |x|
  {
    if x == [] {
      assert a + x == a && b + x == b;
    } else {
      JoinBelow(a, x);
      JoinBelow(b, x);
      ParentIsDir(t, a + x);
      SameBelow(c, t, a, b, Parent(x));
      SameChild(c, t, a + Parent(x), b + Parent(x), Base(x));
    }
  }

  lemma JoinBelow(a: Path, x: Path)
    requires x != []
    ensures a + x == (a + Parent(x)) + [Base(x)] && Parent(a + x) == a + Parent(x)
  {
  }

  lemma SameChild(c: Codec, t: Tree, a: Path, b: Path, n: string)
    requires GoodCodec(c) && SameNode(c, t, a, b) && a + [n] in t.dirs
    ensures SameNode(c, t, a + [n], b + [n])
  {
    NamedChild(c, t, a, n);
    NamedChild(c, t, b, n);
    SameSha(c, t, a + [n], b + [n]);
  }

  lemma SameSha(c: Codec, t: Tree, a: Path, b: Path)
    requires GoodCodec(c) && IsDir(t, a) && IsDir(t, b) && NodeSha(c, NodeOf(c, t, a)) == NodeSha(c, NodeOf(c, t, b))
    ensures SameNode(c, t, a, b)
  {
    NodeShaInjective(c, NodeOf(c, t, a), NodeOf(c, t, b));
  }

  /** A directory never has the node of one of its descendants, or the tree would have no
      bottom: the cycle check cannot reject a built tree, however many subtrees it shares. */
  lemma {:induction false} NoNodeBelowItself(c: Codec, t: Tree, d: Path, s: Path)
    requires GoodCodec(c) && CheckTreeParents(t) && IsDir(t, d) && IsDir(t, d + s) && s != []
    ensures NodeOf(c, t, d) != NodeOf(c, t, d + s)
    decreases Deepest(t.dirs.Keys) + 1 - |d|
  {
    if NodeOf(c, t, d) == NodeOf(c, t, d + s) {
      assert SameNode(c, t, d, d + s);
      SameBelow(c, t, d, d + s, s);
      NoNodeBelowItself(c, t, d + s, s);
    }
  }

  lemma {:induction false} ChainIsOwn(c: Codec, t: Tree, p: Path, i: nat)
    requires GoodCodec(c) && CheckTreeParents(t) && IsDir(t, p) && i <= |p|
    ensures IsDir(t, p[..i]) && Reached(c, BuiltRoot(c, t), p)
    ensures Walk(c, BuiltRoot(c, t), p).value[i] == NodeSha(c, NodeOf(c, t, p[..i]))
    decreases |p|
  {
    BuiltWalk(c, t, p);
    SplitPath(p, i);
    if i == |p| {
      assert OwnNode(c, t, p);
    } else {
      ParentIsDir(t, p);
      ChainIsOwn(c, t, Parent(p), i);
      ChainPrefix(c, BuiltRoot(c, t), p, i);
    }
  }

  lemma SplitPath(p: Path, i: nat)
    requires i <= |p|
    ensures p[..|p|] == p && p == p[..i] + p[i..]
    ensures i < |p| ==> p[..i] == Parent(p)[..i]
  {
  }

  lemma ChainPrefix(c: Codec, root: Sha, p: Path, i: nat)
    requires p != [] && Reached(c, root, p) && i < |p|
    ensures Reached(c, root, Parent(p)) && Walk(c, root, p).value[i] == Walk(c, root, Parent(p)).value[i]
  {
  }

  /** No address comes twice on the way down to a directory. */
  lemma NoRepeat(c: Codec, t: Tree, p: Path, i: nat)
    requires GoodCodec(c) && CheckTreeParents(t) && IsDir(t, p) && i < |p|
    ensures Reached(c, BuiltRoot(c, t), p)
    ensures Walk(c, BuiltRoot(c, t), p).value[i] != Walk(c, BuiltRoot(c, t), p).value[|p|]
  {
    ChainIsOwn(c, t, p, i);
    ChainIsOwn(c, t, p, |p|);
    SplitPath(p, i);
    NoNodeBelowItself(c, t, p[..i], p[i..]);
    if NodeSha(c, NodeOf(c, t, p)) == NodeSha(c, NodeOf(c, t, p[..i])) {
      NodeShaInjective(c, NodeOf(c, t, p), NodeOf(c, t, p[..i]));
    }
  }

  lemma BuiltNotRejected(c: Codec, t: Tree, p: Path)
    requires GoodCodec(c) && CheckTreeParents(t) && p in t.dirs && p != []
    ensures Reached(c, BuiltRoot(c, t), p)
    ensures Rejected(TaskAt(c, BuiltRoot(c, t), p)) <==> |p| > MAX_LOAD_TREE_DEPTH
  {
    BuiltWalk(c, t, p);
    var chain := Walk(c, BuiltRoot(c, t), p).value;
    forall i | 0 <= i < |p| ensures chain[i] != Last(chain) {
      NoRepeat(c, t, p, i);
    }
  }

  // ----- buckets and releases

  lemma BuiltBucket(c: Codec, t: Tree, idx: seq<int>, shas: seq<Sha>, k: nat)
    requires GoodCodec(c) && BucketShas(c, t, idx, shas) && k < |shas|
    ensures BucketAt(c, shas[k]) == Some(BucketOf(t, idx[k]))
  {
    ContentIs(c, c.encBucket(BucketOf(t, idx[k])));
  }

  lemma BuiltBucketsApart(c: Codec, t: Tree, idx: seq<int>, shas: seq<Sha>, i: nat, j: nat)
    requires GoodCodec(c) && BucketShas(c, t, idx, shas) && Ascending(idx) && i < j < |shas|
    ensures Apart(c, shas[i], shas[j])
  {
    BuiltBucket(c, t, idx, shas, i);
    BuiltBucket(c, t, idx, shas, j);
    assert idx[i] < idx[j];
  }

  lemma BuiltReleases(c: Codec, t: Tree, refs: TreeRefs)
    requires GoodCodec(c) && IsRefs(c, t, refs)
    ensures refs.releasesSha != "" && ReleasesAt(c, refs.releasesSha) == Some(t.releases)
  {
    ContentIs(c, c.encReleases(t.releases));
  }

  lemma BuiltChunks(c: Codec, t: Tree, refs: TreeRefs, idx: seq<int>)
    requires GoodCodec(c) && BucketShas(c, t, idx, refs.chunkBuckets) && forall i :: i in idx <==> i in BucketIndexes(t)
    ensures forall i :: 0 <= i < |refs.chunkBuckets| ==> BucketLoaded(c, refs.chunkBuckets[i], t.chunks)
    ensures forall id :: id in t.chunks ==> InSomeBucket(c, ManifestOf(refs), id)
  {
    forall i | 0 <= i < |refs.chunkBuckets| ensures BucketLoaded(c, refs.chunkBuckets[i], t.chunks) {
      BuiltBucket(c, t, idx, refs.chunkBuckets, i);
    }
    forall id | id in t.chunks ensures InSomeBucket(c, ManifestOf(refs), id) {
      assert BucketIndex(id) in BucketIndexes(t);
      var k :| 0 <= k < |idx| && idx[k] == BucketIndex(id);
      BuiltBucket(c, t, idx, refs.chunkBuckets, k);
      assert InBucket(c, refs.chunkBuckets[k], id);
    }
  }

  // ----- the tree a built manifest stands for

  /** A stored "" directory is the one entry that does not come back: the root stands for it. */
  function Restored(t: Tree): Tree {
    t.(dirs := t.dirs - {[]})
  }

  lemma RestoredDirs(c: Codec, t: Tree)
    requires GoodCodec(c) && CheckTreeParents(t)
    ensures forall p :: p in Restored(t).dirs <==> p != [] && Reached(c, BuiltRoot(c, t), p)
    ensures forall p :: p in Restored(t).dirs ==> DirLoaded(c, BuiltRoot(c, t), Restored(t), p)
  {
    forall p
      ensures p in Restored(t).dirs <==> p != [] && Reached(c, BuiltRoot(c, t), p)
      ensures p in Restored(t).dirs ==> DirLoaded(c, BuiltRoot(c, t), Restored(t), p)
    {
      RestoredDir(c, t, p);
    }
  }

  lemma RestoredDir(c: Codec, t: Tree, p: Path)
    requires GoodCodec(c) && CheckTreeParents(t)
    ensures p in Restored(t).dirs <==> p != [] && Reached(c, BuiltRoot(c, t), p)
    ensures p in Restored(t).dirs ==> DirLoaded(c, BuiltRoot(c, t), Restored(t), p)
  {
    BuiltWalk(c, t, p);
    if IsDir(t, p) {
      assert OwnNode(c, t, p);
    }
  }

  lemma RestoredFiles(c: Codec, t: Tree)
    requires GoodCodec(c) && CheckTreeParents(t)
    ensures var root := BuiltRoot(c, t);
      && (forall p :: p in t.files <==> p != [] && FileReached(c, root, p))
      && (forall p :: p in t.files ==> t.files[p] == NodeOn(c, root, Parent(p)).value.files[Base(p)])
  {
    var root := BuiltRoot(c, t);
    forall p
      ensures p in t.files <==> p != [] && FileReached(c, root, p)
      ensures p in t.files ==> t.files[p] == NodeOn(c, root, Parent(p)).value.files[Base(p)]
    {
      if p != [] {
        RestoredFile(c, t, p);
      }
    }
  }

  lemma RestoredFile(c: Codec, t: Tree, p: Path)
    requires GoodCodec(c) && CheckTreeParents(t) && p != []
    ensures var root := BuiltRoot(c, t);
      && (p in t.files <==> FileReached(c, root, p))
      && (p in t.files ==> t.files[p] == NodeOn(c, root, Parent(p)).value.files[Base(p)])
  {
    BuiltWalk(c, t, Parent(p));
    assert p == Parent(p) + [Base(p)];
    if IsDir(t, Parent(p)) {
      assert OwnNode(c, t, Parent(p));
      assert Base(p) in FilesOf(t, Parent(p)) <==> p in t.files;
    }
  }

  lemma BuiltStandsFor(c: Codec, t: Tree, refs: TreeRefs)
    requires GoodCodec(c) && CheckTreeParents(t) && IsRefs(c, t, refs)
    ensures IsLoaded(c, ManifestOf(refs), Restored(t))
  {
    BuiltWalk(c, t, []);
    assert OwnNode(c, t, []);
    RestoredDirs(c, t);
    RestoredFiles(c, t);
    BuiltReleases(c, t, refs);
    var idx :| Ascending(idx) && (forall i :: i in idx <==> i in BucketIndexes(t)) && BucketShas(c, t, idx, refs.chunkBuckets);
    BuiltChunks(c, t, refs, idx);
  }

  // ----- when it loads

  predicate IdsNonNegative(t: Tree) {
    forall id :: id in t.chunks ==> id >= 0
  }

  predicate NotTooDeep(t: Tree) {
    forall p :: p in t.dirs ==> |p| <= MAX_LOAD_TREE_DEPTH
  }

  lemma BuiltDirTask(c: Codec, t: Tree, store: map<Sha, Data>, p: Path)
    requires GoodCodec(c) && CheckTreeParents(t) && HonestStore(c, store) && AllObjects(c, t, store.Keys)
    requires p in t.dirs && p != []
    ensures Reached(c, BuiltRoot(c, t), p)
    ensures TaskFine(c, store, TaskAt(c, BuiltRoot(c, t), p)) <==> |p| <= MAX_LOAD_TREE_DEPTH
  {
    BuiltWalk(c, t, p);
    assert OwnNode(c, t, p);
    BuiltNotRejected(c, t, p);
  }

  lemma BuiltBucketTask(c: Codec, t: Tree, store: map<Sha, Data>, idx: seq<int>, shas: seq<Sha>, k: nat)
    requires GoodCodec(c) && HonestStore(c, store) && AllObjects(c, t, store.Keys)
    requires BucketShas(c, t, idx, shas) && k < |shas| && idx[k] in BucketIndexes(t)
    ensures TaskFine(c, store, BucketTask(k, shas[k])) <==> IdsOk(BucketOf(t, idx[k]))
  {
    BuiltBucket(c, t, idx, shas, k);
  }

  lemma BuiltBucketsFine(c: Codec, t: Tree, store: map<Sha, Data>, idx: seq<int>, refs: TreeRefs)
    requires GoodCodec(c) && HonestStore(c, store) && AllObjects(c, t, store.Keys)
    requires BucketShas(c, t, idx, refs.chunkBuckets) && forall i :: i in idx <==> i in BucketIndexes(t)
    ensures (forall b :: b in BucketTasks(ManifestOf(refs)) ==> TaskFine(c, store, b)) <==> IdsNonNegative(t)
  {
    var shas := refs.chunkBuckets;
    if IdsNonNegative(t) {
      forall b | b in BucketTasks(ManifestOf(refs)) ensures TaskFine(c, store, b) {
        assert idx[b.index] in idx;
        BuiltBucketTask(c, t, store, idx, shas, b.index);
      }
    } else {
      var id :| id in t.chunks && id < 0;
      assert BucketIndex(id) in BucketIndexes(t);
      var k :| 0 <= k < |idx| && idx[k] == BucketIndex(id);
      BuiltBucketTask(c, t, store, idx, shas, k);
      assert id in BucketOf(t, idx[k]).chunks;
      assert BucketTask(k, shas[k]) in BucketTasks(ManifestOf(refs));
    }
  }

  lemma BuiltDirsFine(c: Codec, t: Tree, store: map<Sha, Data>)
    requires GoodCodec(c) && CheckTreeParents(t) && HonestStore(c, store) && AllObjects(c, t, store.Keys)
    ensures var root := BuiltRoot(c, t);
      (forall p :: p != [] && Reached(c, root, p) ==> TaskFine(c, store, TaskAt(c, root, p))) <==> NotTooDeep(t)
  {
    var root := BuiltRoot(c, t);
    if NotTooDeep(t) {
      forall p | p != [] && Reached(c, root, p) ensures TaskFine(c, store, TaskAt(c, root, p)) {
        BuiltWalk(c, t, p);
        BuiltDirTask(c, t, store, p);
      }
    } else {
      var p :| p in t.dirs && |p| > MAX_LOAD_TREE_DEPTH;
      BuiltDirTask(c, t, store, p);
    }
  }

  /** A built tree whose objects are stored is loadable exactly when no chunk id is negative and
      no directory lies too deep. */
  lemma BuiltLoadableIff(c: Codec, t: Tree, refs: TreeRefs, store: map<Sha, Data>)
    requires GoodCodec(c) && CheckTreeParents(t) && IsRefs(c, t, refs) && HonestStore(c, store) && AllObjects(c, t, store.Keys)
    ensures Loadable(c, ManifestOf(refs), store) <==> IdsNonNegative(t) && NotTooDeep(t)
  {
    BuiltRootFine(c, t, refs, store);
    BuiltDirsFine(c, t, store);
    BuiltReleasesFine(c, t, refs, store);
    BuiltChunksFine(c, t, refs, store);
  }

  lemma BuiltRootFine(c: Codec, t: Tree, refs: TreeRefs, store: map<Sha, Data>)
    requires GoodCodec(c) && IsRefs(c, t, refs) && HonestStore(c, store) && AllObjects(c, t, store.Keys)
    ensures refs.rootSha == BuiltRoot(c, t) && refs.rootSha != "" && Fits(c, store, refs.rootSha) && NodeAt(c, refs.rootSha).Some?
  {
    NodeAtOwnSha(c, NodeOf(c, t, []));
  }

  lemma BuiltReleasesFine(c: Codec, t: Tree, refs: TreeRefs, store: map<Sha, Data>)
    requires GoodCodec(c) && IsRefs(c, t, refs) && HonestStore(c, store) && AllObjects(c, t, store.Keys)
    ensures forall r :: r in ReleasesTasks(ManifestOf(refs)) ==> TaskFine(c, store, r)
  {
    BuiltReleases(c, t, refs);
  }

  lemma BuiltChunksFine(c: Codec, t: Tree, refs: TreeRefs, store: map<Sha, Data>)
    requires GoodCodec(c) && IsRefs(c, t, refs) && HonestStore(c, store) && AllObjects(c, t, store.Keys)
    ensures (forall b :: b in BucketTasks(ManifestOf(refs)) ==> TaskFine(c, store, b)) <==> IdsNonNegative(t)
    ensures forall i, j :: 0 <= i < j < |refs.chunkBuckets| ==> Apart(c, refs.chunkBuckets[i], refs.chunkBuckets[j])
  {
    var idx :| Ascending(idx) && (forall i :: i in idx <==> i in BucketIndexes(t)) && BucketShas(c, t, idx, refs.chunkBuckets);
    BuiltBucketsFine(c, t, store, idx, refs);
    forall i, j | 0 <= i < j < |refs.chunkBuckets| ensures Apart(c, refs.chunkBuckets[i], refs.chunkBuckets[j]) {
      BuiltBucketsApart(c, t, idx, refs.chunkBuckets, i, j);
    }
  }

  /** The round trip: any finished load of a built tree succeeds exactly when no chunk id is
      negative and no directory lies deeper than 4096, and then gives the tree back. */
  lemma RoundTrip(c: Codec, t: Tree, refs: TreeRefs, store: map<Sha, Data>, run: seq<Action>)
    requires GoodCodec(c) && CheckTreeParents(t) && IsRefs(c, t, refs) && HonestStore(c, store) && AllObjects(c, t, store.Keys)
    requires Finished(c, ManifestOf(refs), store, run)
    ensures Succeeds(c, ManifestOf(refs), Lookup(store, refs.rootSha), run) <==> IdsNonNegative(t) && NotTooDeep(t)
    ensures Succeeds(c, ManifestOf(refs), Lookup(store, refs.rootSha), run) ==>
      After(c, Begin(c, ManifestOf(refs), Lookup(store, refs.rootSha)).value, run).tree == Restored(t)
  {
    var m, answer := ManifestOf(refs), Lookup(store, refs.rootSha);
    LoadSucceedsIff(c, m, store, run);
    BuiltLoadableIff(c, t, refs, store);
    if Succeeds(c, m, answer, run) {
      LoadIsFaithful(c, m, answer, run);
      BuiltStandsFor(c, t, refs);
      LoadedUnique(c, m, After(c, Begin(c, m, answer).value, run).tree, Restored(t));
    }
  }

  /** Whatever a load of a built tree is answered, a success can only be the tree. */
  lemma NoOtherTree(c: Codec, t: Tree, refs: TreeRefs, answer: Option<Data>, run: seq<Action>)
    requires GoodCodec(c) && CheckTreeParents(t) && IsRefs(c, t, refs) && Succeeds(c, ManifestOf(refs), answer, run)
    ensures After(c, Begin(c, ManifestOf(refs), answer).value, run).tree == Restored(t)
  {
    LoadIsFaithful(c, ManifestOf(refs), answer, run);
    BuiltStandsFor(c, t, refs);
    LoadedUnique(c, ManifestOf(refs), After(c, Begin(c, ManifestOf(refs), answer).value, run).tree, Restored(t));
  }

  /** Every finished load of these references, against what is stored, succeeds exactly when the tree is
      one that loads, and then gives it back. */
  ghost predicate LoadsBack(c: Codec, t: Tree, refs: TreeRefs, store: map<Sha, Data>) {
    forall run :: Finished(c, ManifestOf(refs), store, run) ==>
      && (Succeeds(c, ManifestOf(refs), Lookup(store, refs.rootSha), run) <==> IdsNonNegative(t) && NotTooDeep(t))
      && (Succeeds(c, ManifestOf(refs), Lookup(store, refs.rootSha), run) ==>
        After(c, Begin(c, ManifestOf(refs), Lookup(store, refs.rootSha)).value, run).tree == Restored(t))
  }

  lemma BuiltLoadsBack(c: Codec, t: Tree, refs: TreeRefs, store: map<Sha, Data>)
    requires GoodCodec(c) && CheckTreeParents(t) && IsRefs(c, t, refs) && HonestStore(c, store) && AllObjects(c, t, store.Keys)
    ensures LoadsBack(c, t, refs, store)
  {
    forall run | Finished(c, ManifestOf(refs), store, run)
      ensures Succeeds(c, ManifestOf(refs), Lookup(store, refs.rootSha), run) <==> IdsNonNegative(t) && NotTooDeep(t)
      ensures Succeeds(c, ManifestOf(refs), Lookup(store, refs.rootSha), run) ==>
        After(c, Begin(c, ManifestOf(refs), Lookup(store, refs.rootSha)).value, run).tree == Restored(t)
    {
      RoundTrip(c, t, refs, store, run);
    }
  }

  lemma StoredTogether(c: Codec, store: map<Sha, Data>, objects: map<Sha, Data>)
    ensures (store + objects).Keys == store.Keys + objects.Keys
    ensures HonestStore(c, store) && HonestStore(c, objects) ==> HonestStore(c, store + objects)
  {
  }

  /** Building and loading together: what a build hands over, added to what was stored before, loads
      back, whatever the cache and the known objects let the build skip. */
  method BuildThenLoad(c: Codec, t: Tree, cache: TreeCache?, known: set<Sha>, ghost store: map<Sha, Data>)
      returns (ok: bool, refs: TreeRefs, objects: map<Sha, Data>)
    requires GoodCodec(c) && HonestStore(c, store) && known <= store.Keys
    requires cache != null ==> cache.Sound(c) && cache.Stored(store.Keys)
    modifies cache
    ensures ok ==> CheckTreeParents(t) && IsRefs(c, t, refs) && LoadsBack(c, t, refs, store + objects)
    ensures ok && cache != null ==> cache.Sound(c) && cache.Stored((store + objects).Keys)
  {
    var out := new Emitter();
    StoredTogether(c, store, out.objects);
    assert store + out.objects == store;
    ok, refs := BuildTreeStream(c, t, cache, known, out, store.Keys);
    objects := out.objects;
    if ok {
      StoredTogether(c, store, objects);
      BuiltLoadsBack(c, t, refs, store + objects);
    }
  }
}
