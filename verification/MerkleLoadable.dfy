/** Against one fixed store, whether a load succeeds does not depend on the schedule either. */
module MerkleLoadable {
  import opened Options
  import opened RepoTree
  import opened MerkleObjects
  import opened MerkleLoad
  import opened MerkleLoadRuns

  function Lookup(store: map<Sha, Data>, sha: Sha): Option<Data> {
    if sha in store then Some(store[sha]) else None
  }

  ghost predicate Fits(c: Codec, store: map<Sha, Data>, sha: Sha) {
    sha in store && c.hash(store[sha]) == sha
  }

  ghost predicate TaskFine(c: Codec, store: map<Sha, Data>, t: Task) {
    Fits(c, store, t.sha) && Accepted(c, t)
  }

  /** Every object the manifest reaches is in the store, intact and well-formed; no directory is
      too deep or its own ancestor; no two buckets overlap. */
  ghost predicate Loadable(c: Codec, m: Manifest, store: map<Sha, Data>) {
    && m.treeRoot != "" && Fits(c, store, m.treeRoot) && NodeAt(c, m.treeRoot).Some?
    && (forall p :: p != [] && Reached(c, m.treeRoot, p) ==> TaskFine(c, store, TaskAt(c, m.treeRoot, p)))
    && (forall t :: t in BucketTasks(m) || t in ReleasesTasks(m) ==> TaskFine(c, store, t))
    && (forall i, j :: 0 <= i < j < |m.chunkBuckets| ==> Apart(c, m.chunkBuckets[i], m.chunkBuckets[j]))
  }

  // ----- what that means of the objects themselves

  /** A directory at the end of this chain of addresses: at most 4096 deep, not below itself, and its
      node is stored and can be read. */
  ghost predicate DirHeld(c: Codec, store: map<Sha, Data>, chain: seq<Sha>) {
    && 1 <= |chain| <= 4097 && (forall i :: 0 <= i < |chain| - 1 ==> chain[i] != chain[|chain| - 1])
    && Fits(c, store, chain[|chain| - 1]) && c.decNode(store[chain[|chain| - 1]]).Some?
  }

  /** A bucket is stored, can be read, and has only ids of its own 65536. */
  ghost predicate BucketHeld(c: Codec, store: map<Sha, Data>, sha: Sha) {
    && Fits(c, store, sha) && c.decBucket(store[sha]).Some?
    && var b := c.decBucket(store[sha]).value;
      forall id :: id in b.chunks ==> 0 <= id && b.index * 65536 <= id < (b.index + 1) * 65536
  }

  ghost predicate HasChunk(c: Codec, store: map<Sha, Data>, sha: Sha, id: int) {
    sha in store && c.decBucket(store[sha]).Some? && id in c.decBucket(store[sha]).value.chunks
  }

  ghost predicate ChunksHeld(c: Codec, m: Manifest, store: map<Sha, Data>) {
    && (forall i :: 0 <= i < |m.chunkBuckets| ==> BucketHeld(c, store, m.chunkBuckets[i]))
    && (forall i, j, id :: 0 <= i < j < |m.chunkBuckets| ==>
      !(HasChunk(c, store, m.chunkBuckets[i], id) && HasChunk(c, store, m.chunkBuckets[j], id)))
  }

  lemma BucketTaskIff(c: Codec, store: map<Sha, Data>, i: nat, sha: Sha)
    requires GoodCodec(c)
    ensures TaskFine(c, store, BucketTask(i, sha)) <==> BucketHeld(c, store, sha)
  {
    if Fits(c, store, sha) {
      ContentIs(c, store[sha]);
      if c.decBucket(store[sha]).Some? {
        var b := c.decBucket(store[sha]).value;
        forall id | id in b.chunks ensures id >= 0 ==> (BucketIndex(id) == b.index <==> b.index * 65536 <= id < (b.index + 1) * 65536) {
          BucketIs(id, b.index);
        }
      }
    }
  }

  lemma DirTaskIff(c: Codec, store: map<Sha, Data>, root: Sha, p: Path)
    requires GoodCodec(c) && Reached(c, root, p)
    ensures TaskFine(c, store, TaskAt(c, root, p)) <==> DirHeld(c, store, Walk(c, root, p).value)
  {
    var chain := Walk(c, root, p).value;
    if Fits(c, store, Last(chain)) {
      ContentIs(c, store[Last(chain)]);
    }
    assert Last(chain) in chain[..|chain| - 1] <==> exists i :: 0 <= i < |chain| - 1 && chain[i] == chain[|chain| - 1];
  }

  lemma BucketsIff(c: Codec, m: Manifest, store: map<Sha, Data>)
    requires GoodCodec(c)
    ensures ChunksHeld(c, m, store) <==>
      && (forall t :: t in BucketTasks(m) ==> TaskFine(c, store, t))
      && (forall i, j :: 0 <= i < j < |m.chunkBuckets| ==> Apart(c, m.chunkBuckets[i], m.chunkBuckets[j]))
  {
    forall i | 0 <= i < |m.chunkBuckets|
      ensures TaskFine(c, store, BucketTask(i, m.chunkBuckets[i])) <==> BucketHeld(c, store, m.chunkBuckets[i])
      ensures BucketTask(i, m.chunkBuckets[i]) in BucketTasks(m)
    {
      BucketTaskIff(c, store, i, m.chunkBuckets[i]);
    }
    forall i, id | 0 <= i < |m.chunkBuckets| && BucketHeld(c, store, m.chunkBuckets[i])
      ensures HasChunk(c, store, m.chunkBuckets[i], id) <==> InBucket(c, m.chunkBuckets[i], id)
    {
      ContentIs(c, store[m.chunkBuckets[i]]);
    }
  }

  /** A manifest is loadable exactly when the root and every directory reached from it is held, the
      buckets are held and no chunk is in two of them, and the catalog, if any, is held. */
  lemma LoadableIff(c: Codec, m: Manifest, store: map<Sha, Data>)
    requires GoodCodec(c)
    ensures Loadable(c, m, store) <==>
      && m.treeRoot != ""
      && (forall p :: Reached(c, m.treeRoot, p) ==> DirHeld(c, store, Walk(c, m.treeRoot, p).value))
      && ChunksHeld(c, m, store)
      && (m.releases != "" ==> Fits(c, store, m.releases) && c.decReleases(store[m.releases]).Some?)
  {
    BucketsIff(c, m, store);
    forall p | Reached(c, m.treeRoot, p)
      ensures TaskFine(c, store, TaskAt(c, m.treeRoot, p)) <==> DirHeld(c, store, Walk(c, m.treeRoot, p).value)
    {
      DirTaskIff(c, store, m.treeRoot, p);
    }
    assert Reached(c, m.treeRoot, []) && Walk(c, m.treeRoot, []).value == [m.treeRoot];
    if Fits(c, store, m.treeRoot) {
      ContentIs(c, store[m.treeRoot]);
    }
    if m.releases != "" {
      assert ReleasesTasks(m) == {ReleasesTask(m.releases)};
      if Fits(c, store, m.releases) {
        ContentIs(c, store[m.releases]);
      }
    }
  }

  ghost predicate Honours(store: map<Sha, Data>, a: Action) {
    a.Reply? ==> a.answer == Lookup(store, a.task.sha)
  }

  ghost predicate FromStore(c: Codec, store: map<Sha, Data>, s: Loader) {
    && (forall sha :: sha in s.memo ==> Lookup(store, sha) == Some(s.memo[sha]))
    && (forall t :: t in s.got ==> Lookup(store, t.sha) == Some(s.got[t]))
    && (!s.failed ==> forall t :: t in s.finished ==> Fits(c, store, t.sha))
  }

  lemma FromStoreNext(c: Codec, store: map<Sha, Data>, s: Loader, a: Action)
    requires FromStore(c, store, s) && Enabled(s, a) && Honours(store, a)
    ensures FromStore(c, store, Next(c, s, a))
  {
    if a.Apply? {
      FromStoreApply(c, store, s, a.task);
    }
  }

  lemma FromStoreApply(c: Codec, store: map<Sha, Data>, s: Loader, t: Task)
    requires FromStore(c, store, s) && t in s.got
    ensures FromStore(c, store, ApplyTask(c, s, t))
  {
    ApplyShape(c, s, t);
    var r := ApplyTask(c, s, t);
    assert r.memo == s.memo;
    if !r.failed {
      assert !s.failed && c.hash(s.got[t]) == t.sha;
    }
  }

  /** The tasks of a loadable manifest are all fine. */
  lemma KnownIsFine(c: Codec, m: Manifest, store: map<Sha, Data>, t: Task)
    requires Loadable(c, m, store) && Known(c, m, t)
    ensures TaskFine(c, store, t)
  {
    if t.BucketTask? {
      assert t in BucketTasks(m);
    } else if t.ReleasesTask? {
      assert t in ReleasesTasks(m);
    }
  }

  lemma NewBucketFits(c: Codec, m: Manifest, store: map<Sha, Data>, s: Loader, t: Task, b: ChunkBucket)
    requires Loadable(c, m, store) && TasksKept(c, m, s) && ChunksSoFar(c, Buckets(s), s.tree.chunks)
    requires t.BucketTask? && Known(c, m, t) && t !in s.finished && BucketAt(c, t.sha) == Some(b)
    ensures forall id :: id in b.chunks ==> id !in s.tree.chunks
  {
    forall id | id in b.chunks ensures id !in s.tree.chunks {
      if id in s.tree.chunks {
        assert FromBucket(c, Buckets(s), id);
        var u :| u in Buckets(s) && InBucket(c, u.sha, id);
        assert u in All(s) && Known(c, m, u) && u.index != t.index;
        BucketsApart(c, m, store, u.index, t.index, id);
        assert false;
      }
    }
  }

  lemma BucketsApart(c: Codec, m: Manifest, store: map<Sha, Data>, i: nat, j: nat, id: int)
    requires Loadable(c, m, store) && i < |m.chunkBuckets| && j < |m.chunkBuckets| && i != j
    ensures !(InBucket(c, m.chunkBuckets[i], id) && InBucket(c, m.chunkBuckets[j], id))
  {
    if i < j {
      assert Apart(c, m.chunkBuckets[i], m.chunkBuckets[j]);
    } else {
      assert Apart(c, m.chunkBuckets[j], m.chunkBuckets[i]);
    }
  }

  /** Nothing fails while a loadable manifest is loaded. */
  lemma LoadableNext(c: Codec, m: Manifest, store: map<Sha, Data>, s: Loader, a: Action)
    requires GoodCodec(c) && Loadable(c, m, store) && TasksKept(c, m, s) && LoadedSoFar(c, m, s) && FromStore(c, store, s)
    requires !s.failed && Enabled(s, a) && Honours(store, a)
    ensures !Next(c, s, a).failed
  {
    var t := a.task;
    assert t in All(s) && Known(c, m, t);
    KnownIsFine(c, m, store, t);
    if a.Apply? {
      assert t !in s.finished;
      LoadableApply(c, m, store, s, t);
    }
  }

  lemma LoadableApply(c: Codec, m: Manifest, store: map<Sha, Data>, s: Loader, t: Task)
    requires GoodCodec(c) && Loadable(c, m, store) && TasksKept(c, m, s) && ChunksSoFar(c, Buckets(s), s.tree.chunks)
    requires FromStore(c, store, s) && !s.failed && t in s.got && t !in s.finished && Known(c, m, t) && TaskFine(c, store, t)
    ensures !ApplyTask(c, s, t).failed
  {
    ContentIs(c, s.got[t]);
    if t.BucketTask? {
      NewBucketFits(c, m, store, s, t, c.decBucket(s.got[t]).value);
    }
  }

  ghost predicate AllHonour(store: map<Sha, Data>, run: seq<Action>) {
    forall i :: 0 <= i < |run| ==> Honours(store, run[i])
  }

  lemma {:induction false} RunFromStore(c: Codec, store: map<Sha, Data>, s: Loader, run: seq<Action>)
    requires FromStore(c, store, s) && Legal(c, s, run) && AllHonour(store, run)
    ensures FromStore(c, store, After(c, s, run))
    decreases |run|
  {
    if run != [] {
      assert Honours(store, run[0]);
      FromStoreNext(c, store, s, run[0]);
      RunFromStore(c, store, Next(c, s, run[0]), run[1..]);
    }
  }

  lemma {:induction false} LoadableRun(c: Codec, m: Manifest, store: map<Sha, Data>, s: Loader, run: seq<Action>)
    requires GoodCodec(c) && Loadable(c, m, store) && TasksKept(c, m, s) && LoadedSoFar(c, m, s) && FromStore(c, store, s)
    requires !s.failed && Legal(c, s, run) && AllHonour(store, run)
    ensures !After(c, s, run).failed
    decreases |run|
  {
    if run != [] {
      assert Honours(store, run[0]);
      LoadableNext(c, m, store, s, run[0]);
      TasksKeptByNext(c, m, s, run[0]);
      LoadedByNext(c, m, s, run[0]);
      FromStoreNext(c, store, s, run[0]);
      LoadableRun(c, m, store, Next(c, s, run[0]), run[1..]);
    }
  }

  /** A load that ended well has met every condition. */
  lemma QuietIsLoadable(c: Codec, m: Manifest, store: map<Sha, Data>, s: Loader)
    requires TasksKept(c, m, s) && LoadedSoFar(c, m, s) && FromStore(c, store, s) && Quiet(s) && !s.failed
    requires m.treeRoot != "" && Fits(c, store, m.treeRoot)
    ensures Loadable(c, m, store)
  {
    forall p | p != [] && Reached(c, m.treeRoot, p) ensures TaskFine(c, store, TaskAt(c, m.treeRoot, p)) {
      AllDone(c, m, s, p);
    }
    forall i, j | 0 <= i < j < |m.chunkBuckets| ensures Apart(c, m.chunkBuckets[i], m.chunkBuckets[j]) {
      var t, u := BucketTask(i, m.chunkBuckets[i]), BucketTask(j, m.chunkBuckets[j]);
      assert t in BucketTasks(m) && u in BucketTasks(m);
      assert t in Buckets(s) && u in Buckets(s) && t != u;
    }
  }

  /** A load that begins, follows the store, and comes to rest. */
  ghost predicate Finished(c: Codec, m: Manifest, store: map<Sha, Data>, run: seq<Action>) {
    var begin := Begin(c, m, Lookup(store, m.treeRoot));
    begin.Some? && Legal(c, begin.value, run) && AllHonour(store, run) && Quiet(After(c, begin.value, run))
  }

  /** Against a fixed store, a finished load has succeeded exactly when the manifest is loadable
      from it: no schedule makes a good index fail or a bad one pass. */
  lemma LoadSucceedsIff(c: Codec, m: Manifest, store: map<Sha, Data>, run: seq<Action>)
    requires GoodCodec(c)
    ensures Begin(c, m, Lookup(store, m.treeRoot)).None? ==> !Loadable(c, m, store)
    ensures Finished(c, m, store, run) ==> (Succeeds(c, m, Lookup(store, m.treeRoot), run) <==> Loadable(c, m, store))
  {
    if m.treeRoot in store {
      ContentIs(c, store[m.treeRoot]);
    }
    if Finished(c, m, store, run) {
      BegunLoad(c, m, store, Begin(c, m, Lookup(store, m.treeRoot)).value, run);
    }
  }

  lemma BegunLoad(c: Codec, m: Manifest, store: map<Sha, Data>, s: Loader, run: seq<Action>)
    requires GoodCodec(c) && Begin(c, m, Lookup(store, m.treeRoot)) == Some(s)
    requires Legal(c, s, run) && AllHonour(store, run) && Quiet(After(c, s, run))
    ensures !After(c, s, run).failed <==> Loadable(c, m, store)
  {
    TasksKeptByBegin(c, m, Lookup(store, m.treeRoot));
    LoadedByBegin(c, m, Lookup(store, m.treeRoot));
    assert FromStore(c, store, s);
    if Loadable(c, m, store) {
      LoadableRun(c, m, store, s, run);
    } else if !After(c, s, run).failed {
      LoadedByRun(c, m, s, run);
      RunFromStore(c, store, s, run);
      QuietIsLoadable(c, m, store, After(c, s, run));
      assert false;
    }
  }
}
