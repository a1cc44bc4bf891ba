/** Every run of the loader: it stops, and what it returns is the tree the manifest stands for,
    whatever the order of the tasks and whatever the store answered. */
module MerkleLoadRuns {
  import opened Options
  import opened RepoTree
  import opened MerkleObjects
  import opened MerkleLoad

  // ----- what every state keeps

  ghost predicate Known(c: Codec, m: Manifest, t: Task) {
    match t
    case SubtreeTask(path, _, _) =>
      path != [] && |path| <= MAX_LOAD_TREE_DEPTH + 1 && Reached(c, m.treeRoot, path) && t == TaskAt(c, m.treeRoot, path)
    case BucketTask(i, sha) => i < |m.chunkBuckets| && sha == m.chunkBuckets[i]
    case ReleasesTask(sha) => sha == m.releases && sha != ""
  }

  /** The directory `p` has been inserted, and its children have been spawned. */
  ghost predicate Done(c: Codec, m: Manifest, finished: set<Task>, p: Path) {
    Reached(c, m.treeRoot, p) && (p == [] || TaskAt(c, m.treeRoot, p) in finished)
  }

  ghost predicate ParentDone(c: Codec, m: Manifest, s: Loader, t: Task) {
    t.SubtreeTask? ==> Done(c, m, s.finished, Parent(t.path))
  }

  ghost predicate TasksKept(c: Codec, m: Manifest, s: Loader) {
    && s.ready !! s.fetching !! s.got.Keys !! s.finished
    && (forall t :: t in All(s) ==> Known(c, m, t) && ParentDone(c, m, s, t))
    && (forall t :: t in s.fetching || t in s.got ==> !Rejected(t))
  }

  lemma ChildKnown(c: Codec, m: Manifest, p: Path, n: string)
    requires Reached(c, m.treeRoot, p) && NodeOn(c, m.treeRoot, p).Some? && n in NodeOn(c, m.treeRoot, p).value.subdirs
    requires |p| <= MAX_LOAD_TREE_DEPTH
    ensures var t := ChildTask(p, Walk(c, m.treeRoot, p).value, n, NodeOn(c, m.treeRoot, p).value.subdirs[n]);
      Known(c, m, t) && t.path == p + [n] && Parent(t.path) == p
  {
    WalkChild(c, m.treeRoot, p, n);
    assert Parent(p + [n]) == p;
  }

  /** Tasks below a directory are new until that directory is done. */
  lemma ChildrenNew(c: Codec, m: Manifest, s: Loader, p: Path, ct: Task)
    requires TasksKept(c, m, s) && ct.SubtreeTask? && ct.path != [] && Parent(ct.path) == p && p != []
    requires Reached(c, m.treeRoot, p) && TaskAt(c, m.treeRoot, p) !in s.finished
    ensures ct !in All(s)
  {
  }

  lemma RootChildrenKnown(c: Codec, m: Manifest, root: TreeNode, s: Loader, t: Task)
    requires NodeOn(c, m.treeRoot, []) == Some(root) && t in Children([], [m.treeRoot], root)
    ensures Known(c, m, t) && ParentDone(c, m, s, t)
  {
    var n :| n in root.subdirs && t == ChildTask([], [m.treeRoot], n, root.subdirs[n]);
    ChildKnown(c, m, [], n);
  }

  lemma TasksKeptByBegin(c: Codec, m: Manifest, answer: Option<Data>)
    requires GoodCodec(c) && Begin(c, m, answer).Some?
    ensures NodeOn(c, m.treeRoot, []) == c.decNode(answer.value)
    ensures TasksKept(c, m, Begin(c, m, answer).value)
  {
    var s := Begin(c, m, answer).value;
    ContentIs(c, answer.value);
    var root := c.decNode(answer.value).value;
    assert NodeOn(c, m.treeRoot, []) == Some(root);
    forall t | t in s.ready ensures Known(c, m, t) && ParentDone(c, m, s, t) {
      if t in Children([], [m.treeRoot], root) {
        RootChildrenKnown(c, m, root, s, t);
      }
    }
  }

  /** What applying a task does to the task sets. */
  function NewTasks(c: Codec, s: Loader, t: Task): set<Task>
    requires t in s.got
  {
    if t.SubtreeTask? && c.hash(s.got[t]) == t.sha && c.decNode(s.got[t]).Some? then
      Children(t.path, t.chain, c.decNode(s.got[t]).value)
    else {}
  }

  lemma ApplyShape(c: Codec, s: Loader, t: Task)
    requires t in s.got
    ensures var r := ApplyTask(c, s, t);
      && r.ready == s.ready + NewTasks(c, s, t) && r.fetching == s.fetching && r.got == s.got - {t}
      && r.finished == s.finished + {t}
  {
  }

  lemma NewTasksKnown(c: Codec, m: Manifest, s: Loader, t: Task, ct: Task)
    requires GoodCodec(c) && TasksKept(c, m, s) && t in s.got && ct in NewTasks(c, s, t)
    ensures Known(c, m, ct) && ct !in All(s) && ct.SubtreeTask? && Parent(ct.path) == t.path
  {
    assert t in All(s) && Known(c, m, t) && !Rejected(t);
    ContentIs(c, s.got[t]);
    var node := c.decNode(s.got[t]).value;
    assert NodeOn(c, m.treeRoot, t.path) == Some(node);
    var n :| n in node.subdirs && ct == ChildTask(t.path, t.chain, n, node.subdirs[n]);
    ChildKnown(c, m, t.path, n);
    ChildrenNew(c, m, s, t.path, ct);
  }

  lemma TasksKeptByApply(c: Codec, m: Manifest, s: Loader, t: Task)
    requires GoodCodec(c) && TasksKept(c, m, s) && t in s.got
    ensures TasksKept(c, m, ApplyTask(c, s, t))
  {
    var r := ApplyTask(c, s, t);
    ApplyShape(c, s, t);
    forall ct | ct in NewTasks(c, s, t)
      ensures Known(c, m, ct) && ct !in All(s) && ct.SubtreeTask? && Parent(ct.path) == t.path
    {
      NewTasksKnown(c, m, s, t, ct);
    }
    TasksKeptBySpawn(c, m, s, r, t, NewTasks(c, s, t));
  }

  lemma TasksKeptBySpawn(c: Codec, m: Manifest, s: Loader, r: Loader, t: Task, more: set<Task>)
    requires TasksKept(c, m, s) && t in s.got
    requires r.ready == s.ready + more && r.fetching == s.fetching && r.got == s.got - {t} && r.finished == s.finished + {t}
    requires more != {} ==> t.SubtreeTask?
    requires forall ct :: ct in more ==> Known(c, m, ct) && ct !in All(s) && ct.SubtreeTask? && Parent(ct.path) == t.path
    ensures TasksKept(c, m, r)
  {
    AllAfter(s, r, t, more);
    assert t in All(s) && Known(c, m, t);
    forall u | u in All(r) ensures Known(c, m, u) && ParentDone(c, m, r, u) {
      if u !in more {
        assert ParentDone(c, m, s, u);
      }
    }
    ApartAfter(s, r, t, more);
  }

  lemma ApartAfter(s: Loader, r: Loader, t: Task, more: set<Task>)
    requires s.ready !! s.fetching !! s.got.Keys !! s.finished && t in s.got && more !! All(s)
    requires r.ready == s.ready + more && r.fetching == s.fetching && r.got == s.got - {t} && r.finished == s.finished + {t}
    ensures r.ready !! r.fetching !! r.got.Keys !! r.finished
  {
  }

  lemma AllAfter(s: Loader, r: Loader, t: Task, more: set<Task>)
    requires t in s.got && r.ready == s.ready + more && r.fetching == s.fetching && r.got == s.got - {t}
    requires r.finished == s.finished + {t}
    ensures All(r) == All(s) + more
  {
    assert s.got.Keys == r.got.Keys + {t};
  }

  /** Moving tasks along keeps them, as long as none is lost and none that moves on is rejected. */
  lemma TasksKeptByMove(c: Codec, m: Manifest, s: Loader, r: Loader)
    requires TasksKept(c, m, s) && All(r) == All(s) && s.finished <= r.finished
    requires r.ready !! r.fetching !! r.got.Keys !! r.finished
    requires forall t :: t in r.fetching || t in r.got ==> !Rejected(t)
    ensures TasksKept(c, m, r)
  {
    forall t | t in All(r) ensures Known(c, m, t) && ParentDone(c, m, r, t) {
      assert ParentDone(c, m, s, t);
    }
  }

  lemma TasksKeptByNext(c: Codec, m: Manifest, s: Loader, a: Action)
    requires GoodCodec(c) && TasksKept(c, m, s) && Enabled(s, a)
    ensures TasksKept(c, m, Next(c, s, a))
  {
    if a.Apply? {
      TasksKeptByApply(c, m, s, a.task);
    } else {
      Moves(s, a, Next(c, s, a), c);
      assert a.task in All(s);
      TasksKeptByMove(c, m, s, Next(c, s, a));
    }
  }

  lemma Moves(s: Loader, a: Action, r: Loader, c: Codec)
    requires s.ready !! s.fetching !! s.got.Keys !! s.finished && Enabled(s, a) && !a.Apply? && r == Next(c, s, a)
    requires forall t :: t in s.fetching || t in s.got ==> !Rejected(t)
    ensures All(r) == All(s) && s.finished <= r.finished && r.ready !! r.fetching !! r.got.Keys !! r.finished
    ensures forall t :: t in r.fetching || t in r.got ==> !Rejected(t)
  {
  }

  // ----- every run stops

  /** The reached directories `k` levels down. */
  ghost function Level(c: Codec, root: Sha, k: nat): (ps: set<Path>) {
    if k == 0 then {[]}
    else
      var up := Level(c, root, k - 1);
      set p, n | p in up && n in SubdirNames(c, root, p) :: p + [n]
  }

  ghost function SubdirNames(c: Codec, root: Sha, p: Path): set<string> {
    if NodeOn(c, root, p).Some? then NodeOn(c, root, p).value.subdirs.Keys else {}
  }

  lemma OneDeeper(c: Codec, root: Sha, k: nat, p: Path, n: string)
    requires k > 0 && p in Level(c, root, k - 1) && n in SubdirNames(c, root, p)
    ensures p + [n] in Level(c, root, k)
  {
  }

  lemma {:induction false} OnItsLevel(c: Codec, root: Sha, p: Path)
    requires Reached(c, root, p)
    ensures p in Level(c, root, |p|)
    decreases |p|
  {
    if p != [] {
      WalkParent(c, root, p);
      OnItsLevel(c, root, Parent(p));
      OneDeeper(c, root, |p|, Parent(p), Base(p));
    }
  }

  /** Every task a load can ever have. */
  ghost function Universe(c: Codec, m: Manifest): set<Task> {
    (set k, p | 0 <= k <= MAX_LOAD_TREE_DEPTH + 1 && p in Level(c, m.treeRoot, k) && Reached(c, m.treeRoot, p) ::
      TaskAt(c, m.treeRoot, p)) + BucketTasks(m) + ReleasesTasks(m)
  }

  lemma KnownInUniverse(c: Codec, m: Manifest, t: Task)
    requires Known(c, m, t)
    ensures t in Universe(c, m)
  {
    if t.SubtreeTask? {
      OnItsLevel(c, m.treeRoot, t.path);
    }
  }

  /** Each task is started, answered and applied at most once. */
  ghost function Fuel(c: Codec, m: Manifest, s: Loader): nat {
    var u := Universe(c, m);
    |u - (s.fetching + s.got.Keys + s.finished)| + |u - (s.got.Keys + s.finished)| + |u - s.finished|
  }

  lemma SmallerRest(u: set<Task>, a: set<Task>, b: set<Task>)
    requires a <= b
    ensures |u - b| <= |u - a|
    ensures (exists t :: t in u && t in b && t !in a) ==> |u - b| < |u - a|
  {
    SubsetCard(u - b, u - a);
    if t :| t in u && t in b && t !in a {
      SubsetCard(u - b, u - a - {t});
    }
  }

  lemma SubsetCard(a: set<Task>, b: set<Task>)
    requires a <= b
    ensures |a| <= |b|
  {
    assert b == a + (b - a);
  }

  lemma NextSpends(c: Codec, m: Manifest, s: Loader, a: Action)
    requires TasksKept(c, m, s) && Enabled(s, a)
    ensures Fuel(c, m, Next(c, s, a)) < Fuel(c, m, s)
  {
    var u, r := Universe(c, m), Next(c, s, a);
    assert a.task in All(s);
    KnownInUniverse(c, m, a.task);
    StageGrows(c, s, a);
    SmallerRest(u, s.fetching + s.got.Keys + s.finished, r.fetching + r.got.Keys + r.finished);
    SmallerRest(u, s.got.Keys + s.finished, r.got.Keys + r.finished);
    SmallerRest(u, s.finished, r.finished);
  }

  lemma StageGrows(c: Codec, s: Loader, a: Action)
    requires s.ready !! s.fetching !! s.got.Keys !! s.finished && Enabled(s, a)
    ensures Grows(s, Next(c, s, a), a.task)
  {
    match a
    case Start(t) =>
    case Reply(t, _) =>
    case Apply(t) =>
      ApplyShape(c, s, t);
      AppliedGrows(s, Next(c, s, a), t);
  }

  ghost predicate Grows(s: Loader, r: Loader, t: Task) {
    && s.finished <= r.finished && s.got.Keys + s.finished <= r.got.Keys + r.finished
    && s.fetching + s.got.Keys + s.finished <= r.fetching + r.got.Keys + r.finished
    && (t in r.finished - s.finished
        || t in (r.got.Keys + r.finished) - (s.got.Keys + s.finished)
        || t in (r.fetching + r.got.Keys + r.finished) - (s.fetching + s.got.Keys + s.finished))
  }

  lemma AppliedGrows(s: Loader, r: Loader, t: Task)
    requires t in s.got && t !in s.finished && r.fetching == s.fetching && r.got == s.got - {t} && r.finished == s.finished + {t}
    ensures Grows(s, r, t)
  {
  }

  /** A load of any finite object graph stops: no run is longer than three steps a task. */
  lemma {:induction false} RunBounded(c: Codec, m: Manifest, s: Loader, run: seq<Action>)
    requires GoodCodec(c) && TasksKept(c, m, s) && Legal(c, s, run)
    ensures TasksKept(c, m, After(c, s, run))
    ensures |run| + Fuel(c, m, After(c, s, run)) <= Fuel(c, m, s)
    decreases |run|
  {
    if run != [] {
      NextSpends(c, m, s, run[0]);
      TasksKeptByNext(c, m, s, run[0]);
      RunBounded(c, m, Next(c, s, run[0]), run[1..]);
    }
  }

  lemma FuelAtMost(c: Codec, m: Manifest, s: Loader)
    ensures Fuel(c, m, s) <= 3 * |Universe(c, m)|
  {
    var u := Universe(c, m);
    SubsetCard(u - (s.fetching + s.got.Keys + s.finished), u);
    SubsetCard(u - (s.got.Keys + s.finished), u);
    SubsetCard(u - s.finished, u);
  }

  lemma LoadStops(c: Codec, m: Manifest, answer: Option<Data>, run: seq<Action>)
    requires GoodCodec(c) && Begin(c, m, answer).Some? && Legal(c, Begin(c, m, answer).value, run)
    ensures |run| <= 3 * |Universe(c, m)|
    ensures |run| == 3 * |Universe(c, m)| ==> Quiet(After(c, Begin(c, m, answer).value, run))
  {
    var s := Begin(c, m, answer).value;
    TasksKeptByBegin(c, m, answer);
    RunBounded(c, m, s, run);
    FuelAtMost(c, m, s);
    var e := After(c, s, run);
    if |run| == 3 * |Universe(c, m)| && !Quiet(e) {
      SomeTaskCanMove(e);
      var t :| Enabled(e, Start(t)) || Enabled(e, Reply(t, None)) || Enabled(e, Apply(t));
      var a := if Enabled(e, Start(t)) then Start(t) else if Enabled(e, Reply(t, None)) then Reply(t, None) else Apply(t);
      NextSpends(c, m, e, a);
    }
  }

  // ----- what a state that has not failed has loaded

  ghost predicate Accepted(c: Codec, t: Task) {
    match t
    case SubtreeTask(_, sha, _) => !Rejected(t) && NodeAt(c, sha).Some?
    case BucketTask(_, sha) => BucketAt(c, sha).Some? && IdsOk(BucketAt(c, sha).value)
    case ReleasesTask(sha) => ReleasesAt(c, sha).Some?
  }

  ghost predicate DirsSoFar(c: Codec, m: Manifest, done: set<Task>, t: Tree) {
    && NodeOn(c, m.treeRoot, []).Some? && t.root == NodeOn(c, m.treeRoot, []).value.meta
    && (forall p :: p in t.dirs <==> p != [] && Done(c, m, done, p))
    && (forall p :: p in t.dirs ==> DirLoaded(c, m.treeRoot, t, p))
  }

  ghost predicate FilesSoFar(c: Codec, m: Manifest, done: set<Task>, t: Tree) {
    && (forall p :: p in t.files <==> p != [] && Done(c, m, done, Parent(p)) && FileReached(c, m.treeRoot, p))
    && (forall p :: p in t.files ==> t.files[p] == NodeOn(c, m.treeRoot, Parent(p)).value.files[Base(p)])
  }

  ghost predicate Spawned(c: Codec, m: Manifest, done: set<Task>, all: set<Task>) {
    && (forall p :: p != [] && Reached(c, m.treeRoot, p) && Done(c, m, done, Parent(p)) ==> TaskAt(c, m.treeRoot, p) in all)
    && BucketTasks(m) <= all && ReleasesTasks(m) <= all
  }

  ghost predicate Apart(c: Codec, a: Sha, b: Sha) {
    forall id :: !(InBucket(c, a, id) && InBucket(c, b, id))
  }

  function Buckets(s: Loader): set<Task> {
    set t | t in s.finished && t.BucketTask?
  }

  ghost predicate FromBucket(c: Codec, buckets: set<Task>, id: int) {
    exists t :: t in buckets && InBucket(c, t.sha, id)
  }

  /** The buckets loaded hold the chunks loaded, and no two of them hold the same chunk. */
  ghost predicate ChunksSoFar(c: Codec, buckets: set<Task>, chunks: map<int, ChunkInfo>) {
    && (forall t :: t in buckets ==> BucketLoaded(c, t.sha, chunks))
    && (forall id :: id in chunks ==> FromBucket(c, buckets, id))
    && (forall t, u :: t in buckets && u in buckets && t != u ==> Apart(c, t.sha, u.sha))
  }

  ghost predicate ReleasesSoFar(c: Codec, m: Manifest, done: set<Task>, releases: map<string, ReleaseRef>) {
    if ReleasesTask(m.releases) in done then ReleasesAt(c, m.releases) == Some(releases) else releases == map[]
  }

  ghost predicate AllAccepted(c: Codec, done: set<Task>) {
    forall t :: t in done ==> Accepted(c, t)
  }

  ghost predicate LoadedSoFar(c: Codec, m: Manifest, s: Loader) {
    && DirsSoFar(c, m, s.finished, s.tree) && FilesSoFar(c, m, s.finished, s.tree) && Spawned(c, m, s.finished, All(s)) && ChunksSoFar(c, Buckets(s), s.tree.chunks)
    && ReleasesSoFar(c, m, s.finished, s.tree.releases) && AllAccepted(c, s.finished)
  }

  lemma SpawnedAtFirst(c: Codec, m: Manifest, root: TreeNode, all: set<Task>)
    requires NodeOn(c, m.treeRoot, []) == Some(root)
    requires Children([], [m.treeRoot], root) + BucketTasks(m) + ReleasesTasks(m) <= all
    ensures Spawned(c, m, {}, all)
  {
    forall p | p != [] && Reached(c, m.treeRoot, p) && Done(c, m, {}, Parent(p))
      ensures TaskAt(c, m.treeRoot, p) in all
    {
      WalkParent(c, m.treeRoot, p);
      assert Parent(p) == [];
      WalkChild(c, m.treeRoot, [], Base(p));
      assert TaskAt(c, m.treeRoot, p) in Children([], [m.treeRoot], root);
    }
  }

  lemma FilesAtFirst(c: Codec, m: Manifest, root: TreeNode, t: Tree)
    requires NodeOn(c, m.treeRoot, []) == Some(root) && t.files == JoinFiles([], root.files)
    ensures FilesSoFar(c, m, {}, t)
  {
  }

  lemma LoadedByBegin(c: Codec, m: Manifest, answer: Option<Data>)
    requires GoodCodec(c) && Begin(c, m, answer).Some?
    ensures LoadedSoFar(c, m, Begin(c, m, answer).value)
  {
    var s := Begin(c, m, answer).value;
    TasksKeptByBegin(c, m, answer);
    var root := c.decNode(answer.value).value;
    SpawnedAtFirst(c, m, root, All(s));
    FilesAtFirst(c, m, root, s.tree);
    assert Buckets(s) == {};
  }

  /** Steps that neither insert nor fail change nothing that matters. */
  lemma LoadedFrame(c: Codec, m: Manifest, s: Loader, r: Loader)
    requires LoadedSoFar(c, m, s) && r.tree == s.tree && r.finished == s.finished && All(r) == All(s)
    ensures LoadedSoFar(c, m, r)
  {
  }

  lemma DoneNext(c: Codec, m: Manifest, s: Loader, r: Loader, t: Task, p: Path)
    requires Known(c, m, t) && r.finished == s.finished + {t}
    ensures Done(c, m, r.finished, p) <==> Done(c, m, s.finished, p) || (t.SubtreeTask? && p == t.path)
  {
  }

  lemma DoneGrows(c: Codec, m: Manifest, s: Loader, r: Loader, t: Task)
    requires Known(c, m, t) && t.SubtreeTask? && r.finished == s.finished + {t}
    ensures forall p :: Done(c, m, r.finished, p) <==> Done(c, m, s.finished, p) || p == t.path
  {
    forall p ensures Done(c, m, r.finished, p) <==> Done(c, m, s.finished, p) || p == t.path {
      DoneNext(c, m, s, r, t, p);
    }
  }

  /** `r` is `s` after the node of `t` has been inserted. */
  ghost predicate NodeStep(s: Loader, t: Task, node: TreeNode, r: Loader) {
    && t.SubtreeTask? && r.finished == s.finished + {t} && All(r) == All(s) + Children(t.path, t.chain, node)
    && Buckets(r) == Buckets(s)
    && r.tree == s.tree.(dirs := s.tree.dirs[t.path := node.meta], files := s.tree.files + JoinFiles(t.path, node.files))
  }

  lemma BucketsAfter(s: Loader, r: Loader, t: Task)
    requires r.finished == s.finished + {t}
    ensures Buckets(r) == (if t.BucketTask? then Buckets(s) + {t} else Buckets(s))
  {
  }

  lemma ApplyIsNodeStep(c: Codec, s: Loader, t: Task)
    requires t in s.got && t.SubtreeTask? && !ApplyTask(c, s, t).failed
    ensures c.decNode(s.got[t]).Some? && NodeStep(s, t, c.decNode(s.got[t]).value, ApplyTask(c, s, t))
  {
    var r, node := ApplyTask(c, s, t), c.decNode(s.got[t]).value;
    AllAfter(s, r, t, Children(t.path, t.chain, node));
    BucketsAfter(s, r, t);
  }

  lemma NodeInserted(c: Codec, m: Manifest, s: Loader, t: Task, node: TreeNode, r: Loader)
    requires LoadedSoFar(c, m, s) && Known(c, m, t) && !Rejected(t) && NodeStep(s, t, node, r)
    requires NodeAt(c, t.sha) == Some(node)
    ensures LoadedSoFar(c, m, r)
  {
    EntriesInserted(c, m, s, t, node, r);
    ChildrenInserted(c, m, s, t, node, r);
    AcceptedNext(c, s.finished, t);
  }

  lemma EntriesInserted(c: Codec, m: Manifest, s: Loader, t: Task, node: TreeNode, r: Loader)
    requires DirsSoFar(c, m, s.finished, s.tree) && FilesSoFar(c, m, s.finished, s.tree)
    requires Known(c, m, t) && NodeStep(s, t, node, r) && NodeAt(c, t.sha) == Some(node)
    ensures DirsSoFar(c, m, r.finished, r.tree) && FilesSoFar(c, m, r.finished, r.tree)
  {
    DoneGrows(c, m, s, r, t);
    DirInserted(c, m, s, r, t, node);
    FilesInserted(c, m, s, r, t, node);
  }

  lemma ChildrenInserted(c: Codec, m: Manifest, s: Loader, t: Task, node: TreeNode, r: Loader)
    requires Spawned(c, m, s.finished, All(s)) && Known(c, m, t) && NodeStep(s, t, node, r) && NodeAt(c, t.sha) == Some(node)
    ensures Spawned(c, m, r.finished, All(r))
  {
    DoneGrows(c, m, s, r, t);
    ChildrenSpawned(c, m, s, r, t, node);
  }

  lemma AcceptedNext(c: Codec, done: set<Task>, t: Task)
    requires AllAccepted(c, done) && Accepted(c, t)
    ensures AllAccepted(c, done + {t})
  {
  }

  lemma DirInserted(c: Codec, m: Manifest, s: Loader, r: Loader, t: Task, node: TreeNode)
    requires DirsSoFar(c, m, s.finished, s.tree) && t.SubtreeTask? && t.path != [] && NodeOn(c, m.treeRoot, t.path) == Some(node)
    requires r.tree.root == s.tree.root && r.tree.dirs == s.tree.dirs[t.path := node.meta]
    requires forall p :: Done(c, m, r.finished, p) <==> Done(c, m, s.finished, p) || p == t.path
    ensures DirsSoFar(c, m, r.finished, r.tree)
  {
    forall p | p in r.tree.dirs ensures DirLoaded(c, m.treeRoot, r.tree, p) {
      if p != t.path {
        assert DirLoaded(c, m.treeRoot, s.tree, p);
      }
    }
  }

  lemma FilesInserted(c: Codec, m: Manifest, s: Loader, r: Loader, t: Task, node: TreeNode)
    requires FilesSoFar(c, m, s.finished, s.tree) && t.SubtreeTask? && NodeOn(c, m.treeRoot, t.path) == Some(node)
    requires r.tree.files == s.tree.files + JoinFiles(t.path, node.files)
    requires forall p :: Done(c, m, r.finished, p) <==> Done(c, m, s.finished, p) || p == t.path
    ensures FilesSoFar(c, m, r.finished, r.tree)
  {
    forall p ensures p in r.tree.files <==> p != [] && Done(c, m, r.finished, Parent(p)) && FileReached(c, m.treeRoot, p) {
      assert p in r.tree.files <==> p in s.tree.files || p in JoinFiles(t.path, node.files);
    }
  }

  lemma ChildrenSpawned(c: Codec, m: Manifest, s: Loader, r: Loader, t: Task, node: TreeNode)
    requires Spawned(c, m, s.finished, All(s)) && Known(c, m, t) && t.SubtreeTask? && NodeOn(c, m.treeRoot, t.path) == Some(node)
    requires All(r) == All(s) + Children(t.path, t.chain, node)
    requires forall p :: Done(c, m, r.finished, p) <==> Done(c, m, s.finished, p) || p == t.path
    ensures Spawned(c, m, r.finished, All(r))
  {
    forall p | p != [] && Reached(c, m.treeRoot, p) && Done(c, m, r.finished, Parent(p))
      ensures TaskAt(c, m.treeRoot, p) in All(r)
    {
      if !Done(c, m, s.finished, Parent(p)) {
        WalkParent(c, m.treeRoot, p);
        WalkChild(c, m.treeRoot, t.path, Base(p));
      }
    }
  }

  lemma OthersInserted(c: Codec, m: Manifest, s: Loader, r: Loader, t: Task)
    requires LoadedSoFar(c, m, s) && Known(c, m, t) && !t.SubtreeTask? && r.finished == s.finished + {t} && All(r) == All(s)
    requires r.tree.root == s.tree.root && r.tree.dirs == s.tree.dirs && r.tree.files == s.tree.files
    ensures DirsSoFar(c, m, r.finished, r.tree) && FilesSoFar(c, m, r.finished, r.tree) && Spawned(c, m, r.finished, All(r))
  {
    forall p ensures Done(c, m, r.finished, p) <==> Done(c, m, s.finished, p) {
      DoneNext(c, m, s, r, t, p);
    }
    forall p | p in r.tree.dirs ensures DirLoaded(c, m.treeRoot, r.tree, p) {
      assert DirLoaded(c, m.treeRoot, s.tree, p);
    }
  }

  lemma BucketInserted(c: Codec, buckets: set<Task>, chunks: map<int, ChunkInfo>, t: Task, b: ChunkBucket)
    requires ChunksSoFar(c, buckets, chunks) && t !in buckets && BucketAt(c, t.sha) == Some(b) && BucketOk(b, chunks.Keys)
    ensures ChunksSoFar(c, buckets + {t}, chunks + b.chunks)
  {
    forall u | u in buckets
      ensures BucketLoaded(c, u.sha, chunks + b.chunks) && Apart(c, u.sha, t.sha) && Apart(c, t.sha, u.sha)
    {
      BucketKept(c, u.sha, chunks, b);
      NewBucketApart(c, u.sha, t.sha, chunks, b);
    }
    forall id | id in chunks + b.chunks ensures FromBucket(c, buckets + {t}, id) {
      if id in b.chunks {
        assert InBucket(c, t.sha, id);
      } else {
        assert FromBucket(c, buckets, id);
      }
    }
  }

  lemma BucketKept(c: Codec, sha: Sha, chunks: map<int, ChunkInfo>, b: ChunkBucket)
    requires BucketLoaded(c, sha, chunks) && BucketOk(b, chunks.Keys)
    ensures BucketLoaded(c, sha, chunks + b.chunks)
  {
  }

  lemma NewBucketApart(c: Codec, sha: Sha, added: Sha, chunks: map<int, ChunkInfo>, b: ChunkBucket)
    requires BucketLoaded(c, sha, chunks) && BucketAt(c, added) == Some(b) && BucketOk(b, chunks.Keys)
    ensures Apart(c, sha, added) && Apart(c, added, sha)
  {
  }

  /** `r` is `s` after `t`, which inserts no directory, has been applied. */
  ghost predicate LeafStep(s: Loader, t: Task, r: Loader) {
    && !t.SubtreeTask? && r.finished == s.finished + {t} && All(r) == All(s)
    && Buckets(r) == (if t.BucketTask? then Buckets(s) + {t} else Buckets(s))
    && r.tree.root == s.tree.root && r.tree.dirs == s.tree.dirs && r.tree.files == s.tree.files
  }

  lemma BucketApplied(c: Codec, m: Manifest, s: Loader, t: Task, b: ChunkBucket, r: Loader)
    requires LoadedSoFar(c, m, s) && t.BucketTask? && Known(c, m, t) && t !in s.finished && LeafStep(s, t, r)
    requires BucketAt(c, t.sha) == Some(b) && BucketOk(b, s.tree.chunks.Keys)
    requires r.tree.chunks == s.tree.chunks + b.chunks && r.tree.releases == s.tree.releases
    ensures LoadedSoFar(c, m, r)
  {
    OthersInserted(c, m, s, r, t);
    BucketInserted(c, Buckets(s), s.tree.chunks, t, b);
    AcceptedNext(c, s.finished, t);
  }

  lemma ReleasesApplied(c: Codec, m: Manifest, s: Loader, t: Task, r: Loader)
    requires LoadedSoFar(c, m, s) && t.ReleasesTask? && Known(c, m, t) && t !in s.finished && LeafStep(s, t, r)
    requires r.tree.chunks == s.tree.chunks && ReleasesAt(c, t.sha) == Some(r.tree.releases)
    ensures LoadedSoFar(c, m, r)
  {
    OthersInserted(c, m, s, r, t);
    AcceptedNext(c, s.finished, t);
  }

  lemma ApplyIsLeafStep(c: Codec, s: Loader, t: Task)
    requires t in s.got && !t.SubtreeTask? && !ApplyTask(c, s, t).failed
    ensures LeafStep(s, t, ApplyTask(c, s, t))
    ensures t.ReleasesTask? ==>
      var r := c.decReleases(s.got[t]);
      r.Some? && ApplyTask(c, s, t).tree.chunks == s.tree.chunks && ApplyTask(c, s, t).tree.releases == s.tree.releases + r.value
    ensures t.BucketTask? ==>
      var b := c.decBucket(s.got[t]);
      && b.Some? && BucketOk(b.value, s.tree.chunks.Keys) && ApplyTask(c, s, t).tree.chunks == s.tree.chunks + b.value.chunks
      && ApplyTask(c, s, t).tree.releases == s.tree.releases
  {
    AllAfter(s, ApplyTask(c, s, t), t, {});
    BucketsAfter(s, ApplyTask(c, s, t), t);
  }

  lemma LoadedByApply(c: Codec, m: Manifest, s: Loader, t: Task)
    requires GoodCodec(c) && TasksKept(c, m, s) && LoadedSoFar(c, m, s) && t in s.got && !ApplyTask(c, s, t).failed
    ensures LoadedSoFar(c, m, ApplyTask(c, s, t))
  {
    assert t in All(s) && Known(c, m, t) && t !in s.finished;
    ContentIs(c, s.got[t]);
    if t.SubtreeTask? {
      ApplyIsNodeStep(c, s, t);
      NodeInserted(c, m, s, t, c.decNode(s.got[t]).value, ApplyTask(c, s, t));
    } else {
      LoadedByLeaf(c, m, s, t);
    }
  }

  lemma LoadedByLeaf(c: Codec, m: Manifest, s: Loader, t: Task)
    requires LoadedSoFar(c, m, s) && t in s.got && !t.SubtreeTask? && t !in s.finished && Known(c, m, t)
    requires !ApplyTask(c, s, t).failed && Content(c, t.sha) == Some(s.got[t])
    ensures LoadedSoFar(c, m, ApplyTask(c, s, t))
  {
    if t.BucketTask? {
      LoadedByBucket(c, m, s, t);
    } else {
      LoadedByReleases(c, m, s, t);
    }
  }

  lemma LoadedByBucket(c: Codec, m: Manifest, s: Loader, t: Task)
    requires LoadedSoFar(c, m, s) && t in s.got && t.BucketTask? && t !in s.finished && Known(c, m, t)
    requires !ApplyTask(c, s, t).failed && Content(c, t.sha) == Some(s.got[t])
    ensures LoadedSoFar(c, m, ApplyTask(c, s, t))
  {
    ApplyIsLeafStep(c, s, t);
    BucketApplied(c, m, s, t, c.decBucket(s.got[t]).value, ApplyTask(c, s, t));
  }

  lemma LoadedByReleases(c: Codec, m: Manifest, s: Loader, t: Task)
    requires LoadedSoFar(c, m, s) && t in s.got && t.ReleasesTask? && t !in s.finished && Known(c, m, t)
    requires !ApplyTask(c, s, t).failed && Content(c, t.sha) == Some(s.got[t])
    ensures LoadedSoFar(c, m, ApplyTask(c, s, t))
  {
    ApplyIsLeafStep(c, s, t);
    NoReleasesYet(c, m, s, t);
    assert s.tree.releases + c.decReleases(s.got[t]).value == c.decReleases(s.got[t]).value;
    ReleasesApplied(c, m, s, t, ApplyTask(c, s, t));
  }

  lemma NoReleasesYet(c: Codec, m: Manifest, s: Loader, t: Task)
    requires ReleasesSoFar(c, m, s.finished, s.tree.releases) && t.ReleasesTask? && Known(c, m, t) && t !in s.finished
    ensures s.tree.releases == map[]
  {
  }

  lemma MoveKeepsTree(c: Codec, s: Loader, a: Action)
    requires Enabled(s, a) && !a.Apply? && !Next(c, s, a).failed
    ensures var r := Next(c, s, a); r.tree == s.tree && r.finished == s.finished && All(r) == All(s)
  {
  }

  lemma FailedStays(c: Codec, s: Loader, a: Action)
    requires Enabled(s, a) && s.failed
    ensures Next(c, s, a).failed
  {
  }

  lemma LoadedByNext(c: Codec, m: Manifest, s: Loader, a: Action)
    requires GoodCodec(c) && TasksKept(c, m, s) && LoadedSoFar(c, m, s) && Enabled(s, a) && !Next(c, s, a).failed
    ensures LoadedSoFar(c, m, Next(c, s, a))
  {
    if a.Apply? {
      LoadedByApply(c, m, s, a.task);
    } else {
      MoveKeepsTree(c, s, a);
      LoadedFrame(c, m, s, Next(c, s, a));
    }
  }

  lemma {:induction false} LoadedByRun(c: Codec, m: Manifest, s: Loader, run: seq<Action>)
    requires GoodCodec(c) && TasksKept(c, m, s) && Legal(c, s, run) && (!s.failed ==> LoadedSoFar(c, m, s))
    ensures TasksKept(c, m, After(c, s, run))
    ensures !After(c, s, run).failed ==> LoadedSoFar(c, m, After(c, s, run))
    decreases |run|
  {
    if run != [] {
      TasksKeptByNext(c, m, s, run[0]);
      if s.failed {
        FailedStays(c, s, run[0]);
      } else if !Next(c, s, run[0]).failed {
        LoadedByNext(c, m, s, run[0]);
      }
      LoadedByRun(c, m, Next(c, s, run[0]), run[1..]);
    }
  }

  // ----- the result is determined by the manifest

  lemma {:induction false} AllDone(c: Codec, m: Manifest, s: Loader, p: Path)
    requires Spawned(c, m, s.finished, All(s)) && Quiet(s) && Reached(c, m.treeRoot, p)
    ensures Done(c, m, s.finished, p)
    decreases |p|
  {
    if p != [] {
      WalkParent(c, m.treeRoot, p);
      AllDone(c, m, s, Parent(p));
    }
  }

  lemma QuietIsLoaded(c: Codec, m: Manifest, s: Loader)
    requires TasksKept(c, m, s) && LoadedSoFar(c, m, s) && Quiet(s)
    ensures IsLoaded(c, m, s.tree)
  {
    QuietDirs(c, m, s);
    QuietBuckets(c, m, s);
    QuietReleases(c, m, s);
  }

  lemma QuietDirs(c: Codec, m: Manifest, s: Loader)
    requires DirsSoFar(c, m, s.finished, s.tree) && FilesSoFar(c, m, s.finished, s.tree) && Spawned(c, m, s.finished, All(s)) && Quiet(s)
    ensures forall p :: p in s.tree.dirs <==> p != [] && Reached(c, m.treeRoot, p)
    ensures forall p :: p in s.tree.files <==> p != [] && FileReached(c, m.treeRoot, p)
  {
    forall p | Reached(c, m.treeRoot, p) ensures Done(c, m, s.finished, p) {
      AllDone(c, m, s, p);
    }
  }

  lemma NeverReleases(c: Codec, m: Manifest, s: Loader)
    requires TasksKept(c, m, s)
    ensures ReleasesTask("") !in s.finished
  {
    assert !Known(c, m, ReleasesTask(""));
  }

  lemma QuietReleases(c: Codec, m: Manifest, s: Loader)
    requires TasksKept(c, m, s) && Spawned(c, m, s.finished, All(s)) && ReleasesSoFar(c, m, s.finished, s.tree.releases) && Quiet(s)
    ensures m.releases == "" ==> s.tree.releases == map[]
    ensures m.releases != "" ==> ReleasesAt(c, m.releases) == Some(s.tree.releases)
  {
    var t := ReleasesTask(m.releases);
    NeverReleases(c, m, s);
    if m.releases != "" {
      assert t in s.finished;
    }
  }

  lemma QuietBuckets(c: Codec, m: Manifest, s: Loader)
    requires TasksKept(c, m, s) && Spawned(c, m, s.finished, All(s)) && ChunksSoFar(c, Buckets(s), s.tree.chunks) && Quiet(s)
    ensures forall i :: 0 <= i < |m.chunkBuckets| ==> BucketLoaded(c, m.chunkBuckets[i], s.tree.chunks)
    ensures forall id :: id in s.tree.chunks ==> InSomeBucket(c, m, id)
  {
    forall i | 0 <= i < |m.chunkBuckets| ensures BucketLoaded(c, m.chunkBuckets[i], s.tree.chunks) {
      assert BucketTask(i, m.chunkBuckets[i]) in BucketTasks(m);
      assert BucketTask(i, m.chunkBuckets[i]) in Buckets(s);
    }
    forall id | id in s.tree.chunks ensures InSomeBucket(c, m, id) {
      assert FromBucket(c, Buckets(s), id);
      var t :| t in Buckets(s) && InBucket(c, t.sha, id);
      assert t in All(s) && Known(c, m, t);
      assert InBucket(c, m.chunkBuckets[t.index], id);
    }
  }

  ghost predicate Succeeds(c: Codec, m: Manifest, answer: Option<Data>, run: seq<Action>) {
    && Begin(c, m, answer).Some? && Legal(c, Begin(c, m, answer).value, run)
    && Quiet(After(c, Begin(c, m, answer).value, run)) && !After(c, Begin(c, m, answer).value, run).failed
  }

  /** A load that succeeds returns the tree its manifest stands for. */
  lemma LoadIsFaithful(c: Codec, m: Manifest, answer: Option<Data>, run: seq<Action>)
    requires GoodCodec(c) && Succeeds(c, m, answer, run)
    ensures IsLoaded(c, m, After(c, Begin(c, m, answer).value, run).tree)
  {
    var s := Begin(c, m, answer).value;
    TasksKeptByBegin(c, m, answer);
    LoadedByBegin(c, m, answer);
    LoadedByRun(c, m, s, run);
    QuietIsLoaded(c, m, After(c, s, run));
  }

  /** Two loads of one manifest that both succeed return the same tree, whatever the schedules
      and whatever the two stores answered, wrong answers included. */
  lemma LoadDetermined(c: Codec, m: Manifest, a1: Option<Data>, run1: seq<Action>, a2: Option<Data>, run2: seq<Action>)
    requires GoodCodec(c) && Succeeds(c, m, a1, run1) && Succeeds(c, m, a2, run2)
    ensures After(c, Begin(c, m, a1).value, run1).tree == After(c, Begin(c, m, a2).value, run2).tree
  {
    LoadIsFaithful(c, m, a1, run1);
    LoadIsFaithful(c, m, a2, run2);
    LoadedUnique(c, m, After(c, Begin(c, m, a1).value, run1).tree, After(c, Begin(c, m, a2).value, run2).tree);
  }
}
