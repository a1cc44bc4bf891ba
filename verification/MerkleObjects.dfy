/** The objects of the split index: one node per directory, chunk buckets, and the release
    catalog. Serialization and hashing are parameters: a decoder that undoes its encoder, and
    a hash without collisions. */
module MerkleObjects {
  import opened Options
  import opened RepoTree

  type Sha = string
  type Data = seq<char>

  const CHUNK_BUCKET_SIZE := 65536
  const MAX_LOAD_TREE_DEPTH := 4096

  datatype TreeNode = TreeNode(meta: DirMeta, files: map<string, FileMeta>, subdirs: map<string, Sha>)
  datatype ChunkBucket = ChunkBucket(index: int, chunks: map<int, ChunkInfo>)

  datatype Codec = Codec(
    encNode: TreeNode -> Data, decNode: Data -> Option<TreeNode>,
    encBucket: ChunkBucket -> Data, decBucket: Data -> Option<ChunkBucket>,
    encReleases: map<string, ReleaseRef> -> Data, decReleases: Data -> Option<map<string, ReleaseRef>>,
    hash: Data -> Sha)

  ghost predicate GoodCodec(c: Codec) {
    && (forall n: TreeNode :: c.decNode(c.encNode(n)) == Some(n))
    && (forall b: ChunkBucket :: c.decBucket(c.encBucket(b)) == Some(b))
    && (forall r: map<string, ReleaseRef> :: c.decReleases(c.encReleases(r)) == Some(r))
    && (forall x: Data, y: Data :: c.hash(x) == c.hash(y) ==> x == y)
    && (forall x: Data :: c.hash(x) != "")
  }

  function NodeSha(c: Codec, n: TreeNode): Sha {
    c.hash(c.encNode(n))
  }

  /** Equal addresses, equal nodes. */
  lemma NodeShaInjective(c: Codec, a: TreeNode, b: TreeNode)
    requires GoodCodec(c) && NodeSha(c, a) == NodeSha(c, b)
    ensures a == b
  {
    assert c.encNode(a) == c.encNode(b);
    assert c.decNode(c.encNode(a)) == Some(a) && c.decNode(c.encNode(b)) == Some(b);
  }

  /** The manifest references one build produces. */
  datatype TreeRefs = TreeRefs(rootSha: Sha, chunkBuckets: seq<Sha>, releasesSha: Sha)

  // ----- the objects of a tree

  function DirOf(t: Tree, d: Path): DirMeta
    requires d == [] || d in t.dirs
  {
    if d == [] then t.root else t.dirs[d]
  }

  function FilesOf(t: Tree, d: Path): map<string, FileMeta> {
    map n | n in ChildNames(t.files.Keys, d) :: t.files[d + [n]]
  }

  /** The node of one directory; its children are named by their own nodes' addresses. */
  ghost function NodeOf(c: Codec, t: Tree, d: Path): TreeNode
    requires d == [] || d in t.dirs
    decreases Deepest(t.dirs.Keys) + 1 - |d|
  {
    TreeNode(DirOf(t, d), FilesOf(t, d), SubdirsOf(c, t, d))
  }

  ghost function SubdirsOf(c: Codec, t: Tree, d: Path): map<string, Sha>
    requires d == [] || d in t.dirs
    decreases Deepest(t.dirs.Keys) + 1 - |d|, 0
  {
    map n | n in ChildNames(t.dirs.Keys, d) :: NodeSha(c, NodeOf(c, t, d + [n]))
  }

  // ----- chunk buckets

  /** Integer division as the source's language rounds it. */
  function BucketIndex(id: int): int {
    if id >= 0 then id / CHUNK_BUCKET_SIZE else -(-id / CHUNK_BUCKET_SIZE)
  }

  /** Bucket `b` has the ids from `b` times 65536 on, up to the next bucket. The first one would also
      have those less than 65536 below zero, and the buckets below it mirror those above. */
  lemma BucketIs(id: int, b: int)
    ensures id >= 0 ==> (BucketIndex(id) == b <==> b * 65536 <= id < (b + 1) * 65536)
    ensures id < 0 ==> (BucketIndex(id) == b <==> (b - 1) * 65536 < id <= b * 65536)
  {
  }

  function BucketOf(t: Tree, idx: int): ChunkBucket {
    ChunkBucket(idx, map id | id in t.chunks && BucketIndex(id) == idx :: t.chunks[id])
  }

  function BucketIndexes(t: Tree): set<int> {
    set id | id in t.chunks :: BucketIndex(id)
  }

  predicate Ascending(s: seq<int>) {
    forall i, j :: 0 <= i < j < |s| ==> s[i] < s[j]
  }

  /** An ascending list is determined by its elements. */
  lemma {:induction false} AscendingUnique(a: seq<int>, b: seq<int>)
    requires Ascending(a) && Ascending(b) && forall x :: x in a <==> x in b
    ensures a == b
    decreases |a|
  {
    if a == [] {
      HeadIn(b);
    } else {
      assert a[0] in b && b != [] && b[0] in a;
      assert a[0] == b[0];
      forall x ensures x in a[1..] <==> x in b[1..] {
        TailMembers(a, x);
        TailMembers(b, x);
      }
      AscendingUnique(a[1..], b[1..]);
      assert a == [a[0]] + a[1..] && b == [b[0]] + b[1..];
    }
  }

  lemma HeadIn<T>(s: seq<T>)
    ensures s != [] ==> s[0] in s
  {
  }

  lemma TailMembers(s: seq<int>, x: int)
    requires Ascending(s) && s != []
    ensures x in s[1..] <==> x in s && x != s[0]
  {
    if x in s && x != s[0] {
      var i :| 0 <= i < |s| && s[i] == x;
      assert s[1..][i - 1] == x;
    }
  }

  ghost predicate IsRefs(c: Codec, t: Tree, refs: TreeRefs) {
    && refs.rootSha == NodeSha(c, NodeOf(c, t, []))
    && refs.releasesSha == c.hash(c.encReleases(t.releases))
    && exists idx :: Ascending(idx) && (forall i :: i in idx <==> i in BucketIndexes(t)) && BucketShas(c, t, idx, refs.chunkBuckets)
  }

  ghost predicate BucketShas(c: Codec, t: Tree, idx: seq<int>, shas: seq<Sha>) {
    |shas| == |idx| && forall i :: 0 <= i < |idx| ==> shas[i] == c.hash(c.encBucket(BucketOf(t, idx[i])))
  }

  /** The references of a tree are determined by the tree. */
  lemma RefsUnique(c: Codec, t: Tree, a: TreeRefs, b: TreeRefs)
    requires IsRefs(c, t, a) && IsRefs(c, t, b)
    ensures a == b
  {
    var i :| Ascending(i) && (forall x :: x in i <==> x in BucketIndexes(t)) && BucketShas(c, t, i, a.chunkBuckets);
    var j :| Ascending(j) && (forall x :: x in j <==> x in BucketIndexes(t)) && BucketShas(c, t, j, b.chunkBuckets);
    AscendingUnique(i, j);
    assert a.chunkBuckets == b.chunkBuckets;
  }
}
