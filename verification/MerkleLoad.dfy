/** Loading a manifest back: a set of fetch tasks that may run in any order against a store that
    may answer anything, as a transition system. */
module MerkleLoad {
  import opened Options
  import opened RepoTree
  import opened MerkleObjects

  datatype Manifest = Manifest(treeRoot: Sha, chunkBuckets: seq<Sha>, releases: Sha)

  /** A subtree task carries the addresses from the root down to its own node. */
  datatype Task =
    | SubtreeTask(path: Path, sha: Sha, chain: seq<Sha>)
    | BucketTask(index: nat, sha: Sha)
    | ReleasesTask(sha: Sha)

  datatype Loader = Loader(
    ready: set<Task>, fetching: set<Task>, got: map<Task, Data>, finished: set<Task>,
    memo: map<Sha, Data>, tree: Tree, failed: bool)

  datatype Action = Start(task: Task) | Reply(task: Task, answer: Option<Data>) | Apply(task: Task)

  // ----- one task

  /** The depth bound and the cycle check, made before anything is fetched. */
  predicate Rejected(t: Task) {
    t.SubtreeTask? && t.chain != [] && (|t.chain| - 1 > MAX_LOAD_TREE_DEPTH || t.sha in t.chain[..|t.chain| - 1])
  }

  function ChildTask(path: Path, chain: seq<Sha>, name: string, sha: Sha): Task {
    SubtreeTask(path + [name], sha, chain + [sha])
  }

  function Children(path: Path, chain: seq<Sha>, node: TreeNode): set<Task> {
    set n | n in node.subdirs :: ChildTask(path, chain, n, node.subdirs[n])
  }

  function JoinFiles(path: Path, files: map<string, FileMeta>): (r: map<Path, FileMeta>)
    ensures forall p :: p in r <==> p != [] && Parent(p) == path && Base(p) in files
    ensures forall p :: p in r ==> r[p] == files[Base(p)]
  {
    var keys := set n | n in files :: path + [n];
    assert forall p :: p in keys <==> p != [] && Parent(p) == path && Base(p) in files by {
      forall p ensures p in keys <==> p != [] && Parent(p) == path && Base(p) in files {
        if p != [] && Parent(p) == path && Base(p) in files {
          assert p == path + [Base(p)];
        }
        if p in keys {
          var n :| n in files && p == path + [n];
          assert Parent(p) == path && Base(p) == n;
        }
      }
    }
    map p | p in keys :: files[Base(p)]
  }

  /** What loading one bucket demands: ids of that bucket, none seen before. */
  predicate BucketOk(b: ChunkBucket, seen: set<int>) {
    IdsOk(b) && forall id :: id in b.chunks ==> id !in seen
  }

  predicate IdsOk(b: ChunkBucket) {
    forall id :: id in b.chunks ==> id >= 0 && BucketIndex(id) == b.index
  }

  datatype BucketError = NegativeId(id: int) | ForeignId(id: int) | DuplicateId(id: int)

  /** The complaint is about an id of the bucket, and is true of it. */
  predicate Justified(e: BucketError, b: ChunkBucket, seen: set<int>) {
    && e.id in b.chunks
    && (e.NegativeId? <==> e.id < 0)
    && (e.ForeignId? <==> e.id >= 0 && BucketIndex(e.id) != b.index)
    && (e.DuplicateId? ==> e.id in seen)
  }

  /** The bucket loop: stops at the first id that does not belong, in whatever order it meets
      them, and says why. */
  method LoadBucket(b: ChunkBucket, chunks: map<int, ChunkInfo>) returns (error: Option<BucketError>, out: map<int, ChunkInfo>)
    ensures error == None <==> BucketOk(b, chunks.Keys)
    ensures error == None ==> out == chunks + b.chunks
    ensures error.Some? ==> Justified(error.value, b, chunks.Keys)
  {
    out := chunks;
    var rest := b.chunks.Items;
    while rest != {}
      invariant rest <= b.chunks.Items && PartlyLoaded(b, chunks, rest, out)
      decreases |rest|
    {
      var item :| item in rest;
      var id := item.0;
      if id < 0 {
        return Some(NegativeId(id)), out;
      }
      if BucketIndex(id) != b.index {
        return Some(ForeignId(id)), out;
      }
      if id in out {
        return Some(DuplicateId(id)), out;
      }
      out := out[id := item.1];
      rest := rest - {item};
    }
    error := None;
    AllLoaded(b, chunks, out);
  }

  /** The entries outside `rest` are loaded, and every one of them belongs. */
  ghost predicate PartlyLoaded(b: ChunkBucket, chunks: map<int, ChunkInfo>, rest: set<(int, ChunkInfo)>, out: map<int, ChunkInfo>) {
    && (forall id :: id in out <==> id in chunks || (id in b.chunks && (id, b.chunks[id]) !in rest))
    && (forall id :: id in out ==> id in chunks || (id in b.chunks && out[id] == b.chunks[id]))
    && (forall id :: id in chunks ==> id in out && out[id] == chunks[id])
    && (forall id :: id in b.chunks && (id, b.chunks[id]) !in rest ==> id >= 0 && BucketIndex(id) == b.index && id !in chunks)
  }

  lemma AllLoaded(b: ChunkBucket, chunks: map<int, ChunkInfo>, out: map<int, ChunkInfo>)
    requires PartlyLoaded(b, chunks, {}, out)
    ensures out == chunks + b.chunks && BucketOk(b, chunks.Keys)
  {
    var sum := chunks + b.chunks;
    forall id ensures id in out <==> id in sum {
    }
    forall id | id in out ensures out[id] == sum[id] {
      if id in b.chunks {
        assert id !in chunks;
      }
    }
    assert out == sum;
  }

  // ----- steps

  predicate Enabled(s: Loader, a: Action) {
    match a
    case Start(t) => t in s.ready
    case Reply(t, _) => t in s.fetching
    case Apply(t) => t in s.got
  }

  function Fail(s: Loader): Loader {
    s.(failed := true)
  }

  /** After a failure, tasks not yet started are dropped. Fetched bytes are kept for the next
      task with the same address. */
  function StartTask(s: Loader, t: Task): Loader {
    var rest := s.(ready := s.ready - {t});
    if s.failed then rest.(finished := s.finished + {t})
    else if Rejected(t) then Fail(rest.(finished := s.finished + {t}))
    else if t.sha in s.memo then rest.(got := s.got[t := s.memo[t.sha]])
    else rest.(fetching := s.fetching + {t})
  }

  function ReplyTask(s: Loader, t: Task, answer: Option<Data>): Loader {
    var rest := s.(fetching := s.fetching - {t});
    match answer
    case None => Fail(rest.(finished := s.finished + {t}))
    case Some(data) => rest.(memo := s.memo[t.sha := data], got := s.got[t := data])
  }

  /** Nothing is decoded whose content does not have the address it was asked for by. */
  function ApplyTask(c: Codec, s: Loader, t: Task): Loader
    requires t in s.got
  {
    var rest := s.(got := s.got - {t}, finished := s.finished + {t});
    var data := s.got[t];
    if c.hash(data) != t.sha then Fail(rest)
    else match t
      case SubtreeTask(path, _, chain) => ApplyNode(rest, path, chain, c.decNode(data))
      case BucketTask(_, _) => ApplyBucket(rest, c.decBucket(data))
      case ReleasesTask(_) => ApplyReleases(rest, c.decReleases(data))
  }

  function ApplyNode(s: Loader, path: Path, chain: seq<Sha>, node: Option<TreeNode>): Loader {
    match node
    case None => Fail(s)
    case Some(n) =>
      s.(tree := s.tree.(dirs := s.tree.dirs[path := n.meta], files := s.tree.files + JoinFiles(path, n.files)),
         ready := s.ready + Children(path, chain, n))
  }

  function ApplyBucket(s: Loader, bucket: Option<ChunkBucket>): Loader {
    match bucket
    case None => Fail(s)
    case Some(b) =>
      if BucketOk(b, s.tree.chunks.Keys) then s.(tree := s.tree.(chunks := s.tree.chunks + b.chunks)) else Fail(s)
  }

  function ApplyReleases(s: Loader, releases: Option<map<string, ReleaseRef>>): Loader {
    match releases
    case None => Fail(s)
    case Some(r) => s.(tree := s.tree.(releases := s.tree.releases + r))
  }

  function Next(c: Codec, s: Loader, a: Action): Loader
    requires Enabled(s, a)
  {
    match a
    case Start(t) => StartTask(s, t)
    case Reply(t, answer) => ReplyTask(s, t, answer)
    case Apply(t) => ApplyTask(c, s, t)
  }

  // ----- runs

  function BucketTasks(m: Manifest): set<Task> {
    set i | 0 <= i < |m.chunkBuckets| :: BucketTask(i, m.chunkBuckets[i])
  }

  function ReleasesTasks(m: Manifest): set<Task> {
    if m.releases == "" then {} else {ReleasesTask(m.releases)}
  }

  /** The root is fetched first and alone; None is the error return. */
  function Begin(c: Codec, m: Manifest, answer: Option<Data>): Option<Loader> {
    if m.treeRoot == "" || answer.None? || c.hash(answer.value) != m.treeRoot || c.decNode(answer.value).None? then None
    else
      var root := c.decNode(answer.value).value;
      Some(Loader(
        Children([], [m.treeRoot], root) + BucketTasks(m) + ReleasesTasks(m), {}, map[], {},
        map[m.treeRoot := answer.value],
        Tree(root.meta, map[], JoinFiles([], root.files), map[], map[]), false))
  }

  ghost predicate Legal(c: Codec, s: Loader, run: seq<Action>)
    decreases |run|
  {
    run != [] ==> Enabled(s, run[0]) && Legal(c, Next(c, s, run[0]), run[1..])
  }

  ghost function After(c: Codec, s: Loader, run: seq<Action>): Loader
    requires Legal(c, s, run)
    decreases |run|
  {
    if run == [] then s else After(c, Next(c, s, run[0]), run[1..])
  }

  predicate Quiet(s: Loader) {
    s.ready == {} && s.fetching == {} && s.got == map[]
  }

  function All(s: Loader): set<Task> {
    s.ready + s.fetching + s.got.Keys + s.finished
  }

  lemma NoKeys(m: map<Task, Data>)
    ensures m.Keys == {} ==> m == map[]
  {
  }

  /** Unless a loader is quiet, something can happen. */
  lemma SomeTaskCanMove(s: Loader)
    requires !Quiet(s)
    ensures exists t :: Enabled(s, Start(t)) || Enabled(s, Reply(t, None)) || Enabled(s, Apply(t))
  {
    if s.ready != {} {
      var t :| t in s.ready;
      assert Enabled(s, Start(t));
    } else if s.fetching != {} {
      var t :| t in s.fetching;
      assert Enabled(s, Reply(t, None));
    } else {
      NoKeys(s.got);
      var t :| t in s.got.Keys;
      assert Enabled(s, Apply(t));
    }
  }

  // ----- what a manifest means, whatever any store holds

  /** The one content with a given address, if there is any. */
  ghost function Content(c: Codec, sha: Sha): Option<Data> {
    if exists d :: c.hash(d) == sha then
      var d :| c.hash(d) == sha;
      Some(d)
    else None
  }

  lemma ContentIs(c: Codec, d: Data)
    requires GoodCodec(c)
    ensures Content(c, c.hash(d)) == Some(d)
  {
  }

  ghost function NodeAt(c: Codec, sha: Sha): Option<TreeNode> {
    match Content(c, sha)
    case None => None
    case Some(d) => c.decNode(d)
  }

  ghost function BucketAt(c: Codec, sha: Sha): Option<ChunkBucket> {
    match Content(c, sha)
    case None => None
    case Some(d) => c.decBucket(d)
  }

  ghost function ReleasesAt(c: Codec, sha: Sha): Option<map<string, ReleaseRef>> {
    match Content(c, sha)
    case None => None
    case Some(d) => c.decReleases(d)
  }

  function Last(chain: seq<Sha>): Sha
    requires chain != []
  {
    chain[|chain| - 1]
  }

  /** The addresses on the way from the root to a directory. */
  ghost function Walk(c: Codec, root: Sha, p: Path): (r: Option<seq<Sha>>)
    ensures r.Some? ==> |r.value| == |p| + 1
    decreases |p|
  {
    if p == [] then Some([root])
    else match Walk(c, root, Parent(p))
      case None => None
      case Some(chain) => match NodeAt(c, Last(chain))
        case None => None
        case Some(node) => if Base(p) in node.subdirs then Some(chain + [node.subdirs[Base(p)]]) else None
  }

  ghost predicate Reached(c: Codec, root: Sha, p: Path) {
    Walk(c, root, p).Some?
  }

  ghost function NodeOn(c: Codec, root: Sha, p: Path): Option<TreeNode> {
    match Walk(c, root, p)
    case None => None
    case Some(chain) => NodeAt(c, Last(chain))
  }

  ghost function TaskAt(c: Codec, root: Sha, p: Path): Task
    requires Reached(c, root, p)
  {
    var chain := Walk(c, root, p).value;
    SubtreeTask(p, Last(chain), chain)
  }

  lemma WalkChild(c: Codec, root: Sha, p: Path, n: string)
    requires Reached(c, root, p) && NodeOn(c, root, p).Some?
    ensures Reached(c, root, p + [n]) <==> n in NodeOn(c, root, p).value.subdirs
    ensures Reached(c, root, p + [n]) ==>
      TaskAt(c, root, p + [n]) == ChildTask(p, Walk(c, root, p).value, n, NodeOn(c, root, p).value.subdirs[n])
  {
    assert Parent(p + [n]) == p && Base(p + [n]) == n;
  }

  lemma WalkParent(c: Codec, root: Sha, p: Path)
    requires p != [] && Reached(c, root, p)
    ensures Reached(c, root, Parent(p)) && NodeOn(c, root, Parent(p)).Some?
    ensures Base(p) in NodeOn(c, root, Parent(p)).value.subdirs
    ensures p == Parent(p) + [Base(p)]
  {
  }

  /** The tree a manifest stands for. */
  ghost predicate IsLoaded(c: Codec, m: Manifest, t: Tree) {
    && NodeOn(c, m.treeRoot, []).Some? && t.root == NodeOn(c, m.treeRoot, []).value.meta
    && (forall p :: p in t.dirs <==> p != [] && Reached(c, m.treeRoot, p))
    && (forall p :: p in t.dirs ==> DirLoaded(c, m.treeRoot, t, p))
    && (forall p :: p in t.files <==> p != [] && FileReached(c, m.treeRoot, p))
    && (forall p :: p in t.files ==> t.files[p] == NodeOn(c, m.treeRoot, Parent(p)).value.files[Base(p)])
    && (forall i :: 0 <= i < |m.chunkBuckets| ==> BucketLoaded(c, m.chunkBuckets[i], t.chunks))
    && (forall id :: id in t.chunks ==> InSomeBucket(c, m, id))
    && (m.releases == "" ==> t.releases == map[])
    && (m.releases != "" ==> ReleasesAt(c, m.releases) == Some(t.releases))
  }

  ghost predicate DirLoaded(c: Codec, root: Sha, t: Tree, p: Path)
    requires p in t.dirs
  {
    NodeOn(c, root, p).Some? && t.dirs[p] == NodeOn(c, root, p).value.meta
  }

  ghost predicate FileReached(c: Codec, root: Sha, p: Path)
    requires p != []
  {
    NodeOn(c, root, Parent(p)).Some? && Base(p) in NodeOn(c, root, Parent(p)).value.files
  }

  ghost predicate BucketLoaded(c: Codec, sha: Sha, chunks: map<int, ChunkInfo>) {
    && BucketAt(c, sha).Some?
    && forall id :: id in BucketAt(c, sha).value.chunks ==> id in chunks && chunks[id] == BucketAt(c, sha).value.chunks[id]
  }

  ghost predicate InBucket(c: Codec, sha: Sha, id: int) {
    BucketAt(c, sha).Some? && id in BucketAt(c, sha).value.chunks
  }

  ghost predicate InSomeBucket(c: Codec, m: Manifest, id: int) {
    exists i :: 0 <= i < |m.chunkBuckets| && InBucket(c, m.chunkBuckets[i], id)
  }

  /** A manifest stands for at most one tree. */
  lemma LoadedUnique(c: Codec, m: Manifest, a: Tree, b: Tree)
    requires IsLoaded(c, m, a) && IsLoaded(c, m, b)
    ensures a == b
  {
    DirsUnique(c, m, a, b);
    FilesUnique(c, m, a, b);
    ChunksUnique(c, m, a, b);
  }

  lemma DirsUnique(c: Codec, m: Manifest, a: Tree, b: Tree)
    requires IsLoaded(c, m, a) && IsLoaded(c, m, b)
    ensures a.dirs == b.dirs
  {
    forall p | p in a.dirs ensures p in b.dirs && a.dirs[p] == b.dirs[p] {
      assert DirLoaded(c, m.treeRoot, a, p) && DirLoaded(c, m.treeRoot, b, p);
    }
  }

  lemma FilesUnique(c: Codec, m: Manifest, a: Tree, b: Tree)
    requires IsLoaded(c, m, a) && IsLoaded(c, m, b)
    ensures a.files == b.files
  {
  }

  lemma ChunksUnique(c: Codec, m: Manifest, a: Tree, b: Tree)
    requires forall i :: 0 <= i < |m.chunkBuckets| ==> BucketLoaded(c, m.chunkBuckets[i], a.chunks)
    requires forall i :: 0 <= i < |m.chunkBuckets| ==> BucketLoaded(c, m.chunkBuckets[i], b.chunks)
    requires forall id :: id in a.chunks ==> InSomeBucket(c, m, id)
    requires forall id :: id in b.chunks ==> InSomeBucket(c, m, id)
    ensures a.chunks == b.chunks
  {
    forall id | id in a.chunks ensures id in b.chunks && a.chunks[id] == b.chunks[id] {
      ChunkInBoth(c, m, a, b, id);
    }
    forall id | id in b.chunks ensures id in a.chunks {
      ChunkInBoth(c, m, b, a, id);
    }
  }

  lemma ChunkInBoth(c: Codec, m: Manifest, a: Tree, b: Tree, id: int)
    requires forall i :: 0 <= i < |m.chunkBuckets| ==> BucketLoaded(c, m.chunkBuckets[i], a.chunks)
    requires forall i :: 0 <= i < |m.chunkBuckets| ==> BucketLoaded(c, m.chunkBuckets[i], b.chunks)
    requires id in a.chunks && InSomeBucket(c, m, id)
    ensures id in b.chunks && a.chunks[id] == b.chunks[id]
  {
    var i :| 0 <= i < |m.chunkBuckets| && InBucket(c, m.chunkBuckets[i], id);
    assert BucketLoaded(c, m.chunkBuckets[i], a.chunks) && BucketLoaded(c, m.chunkBuckets[i], b.chunks);
  }
}
