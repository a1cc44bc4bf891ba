/** A codec of the kind the serialization is assumed to have: every list of parts written with its
    lengths, every map entry by entry, and the text itself for a hash. */
module MerkleCodec {
  import opened Options
  import opened RepoTree
  import opened MerkleObjects

  // ----- lists of texts as one text

  function Unary(n: nat): string {
    if n == 0 then "0" else "1" + Unary(n - 1)
  }

  lemma {:induction false} UnaryPrefix(m: nat, n: nat, x: string, y: string)
    requires Unary(m) + x == Unary(n) + y
    ensures m == n && x == y
    decreases m
  {
    assert (Unary(m) + x)[0] == (Unary(n) + y)[0];
    assert (Unary(m) + x)[1..] == (if m == 0 then x else Unary(m - 1) + x);
    assert (Unary(n) + y)[1..] == (if n == 0 then y else Unary(n - 1) + y);
    if m > 0 {
      UnaryPrefix(m - 1, n - 1, x, y);
    }
  }

  function Pack(parts: seq<string>): string {
    if parts == [] then "" else Unary(|parts[0]|) + (parts[0] + Pack(parts[1..]))
  }

  lemma {:induction false} PackInjective(a: seq<string>, b: seq<string>)
    requires Pack(a) == Pack(b)
    ensures a == b
    decreases |a|
  {
    if a != [] && b != [] {
      var x, y := a[0] + Pack(a[1..]), b[0] + Pack(b[1..]);
      UnaryPrefix(|a[0]|, |b[0]|, x, y);
      assert a[0] == x[..|a[0]|] && b[0] == y[..|a[0]|];
      assert Pack(a[1..]) == x[|a[0]|..] && Pack(b[1..]) == y[|a[0]|..];
      PackInjective(a[1..], b[1..]);
      assert a == [a[0]] + a[1..] && b == [b[0]] + b[1..];
    }
  }

  // ----- values as texts

  function OfInt(i: int): string {
    if i < 0 then "-" + Unary(-i) else Unary(i)
  }

  lemma OfIntInjective(i: int, j: int)
    requires OfInt(i) == OfInt(j)
    ensures i == j
  {
    assert OfInt(i)[0] == OfInt(j)[0];
    var m, n := if i < 0 then -i else i, if j < 0 then -j else j;
    assert Unary(m) == if i < 0 then OfInt(i)[1..] else OfInt(i);
    assert Unary(n) == if j < 0 then OfInt(j)[1..] else OfInt(j);
    assert Unary(m) + "" == Unary(n) + "";
    UnaryPrefix(m, n, "", "");
  }

  function OfInts(s: seq<int>): seq<string> {
    if s == [] then [] else [OfInt(s[0])] + OfInts(s[1..])
  }

  lemma {:induction false} OfIntsInjective(a: seq<int>, b: seq<int>)
    requires OfInts(a) == OfInts(b)
    ensures a == b
    decreases |a|
  {
    if a != [] && b != [] {
      assert OfInts(a)[0] == OfInts(b)[0] && OfInts(a)[1..] == OfInts(b)[1..];
      OfIntInjective(a[0], b[0]);
      OfIntsInjective(a[1..], b[1..]);
      assert a == [a[0]] + a[1..] && b == [b[0]] + b[1..];
    }
  }

  function OfLink(link: Option<Target>): string {
    match link
    case None => Pack([])
    case Some(t) => Pack([if t.absolute then "/" else "", Pack(t.parts)])
  }

  lemma OfLinkInjective(a: Option<Target>, b: Option<Target>)
    requires OfLink(a) == OfLink(b)
    ensures a == b
  {
    var x, y := if a == None then [] else [if a.value.absolute then "/" else "", Pack(a.value.parts)],
      if b == None then [] else [if b.value.absolute then "/" else "", Pack(b.value.parts)];
    PackInjective(x, y);
    if a != None && b != None {
      assert x[0] == y[0] && x[1] == y[1];
      PackInjective(a.value.parts, b.value.parts);
    }
  }

  function FileParts(f: FileMeta): seq<string> {
    [OfInt(f.inode), OfInt(f.size), Pack(OfInts(f.chunks)), OfLink(f.link), OfInt(f.mode), OfInt(f.modifiedAt), OfInt(f.changedAt)]
  }

  function OfFile(f: FileMeta): string {
    Pack(FileParts(f))
  }

  lemma OfFileInjective(a: FileMeta, b: FileMeta)
    requires OfFile(a) == OfFile(b)
    ensures a == b
  {
    var x, y := FileParts(a), FileParts(b);
    PackInjective(x, y);
    assert x[0] == y[0] && x[1] == y[1] && x[2] == y[2] && x[3] == y[3] && x[4] == y[4] && x[5] == y[5] && x[6] == y[6];
    OfIntInjective(a.inode, b.inode);
    OfIntInjective(a.size, b.size);
    PackInjective(OfInts(a.chunks), OfInts(b.chunks));
    OfIntsInjective(a.chunks, b.chunks);
    OfLinkInjective(a.link, b.link);
    OfIntInjective(a.mode, b.mode);
    OfIntInjective(a.modifiedAt, b.modifiedAt);
    OfIntInjective(a.changedAt, b.changedAt);
  }

  function OfDir(d: DirMeta): string {
    Pack([OfInt(d.inode), OfInt(d.mode), OfInt(d.modifiedAt), OfInt(d.changedAt)])
  }

  lemma OfDirInjective(a: DirMeta, b: DirMeta)
    requires OfDir(a) == OfDir(b)
    ensures a == b
  {
    var x := [OfInt(a.inode), OfInt(a.mode), OfInt(a.modifiedAt), OfInt(a.changedAt)];
    var y := [OfInt(b.inode), OfInt(b.mode), OfInt(b.modifiedAt), OfInt(b.changedAt)];
    PackInjective(x, y);
    assert x[0] == y[0] && x[1] == y[1] && x[2] == y[2] && x[3] == y[3];
    OfIntInjective(a.inode, b.inode);
    OfIntInjective(a.mode, b.mode);
    OfIntInjective(a.modifiedAt, b.modifiedAt);
    OfIntInjective(a.changedAt, b.changedAt);
  }

  function OfChunk(c: ChunkInfo): string {
    Pack([OfInt(c.offset), OfInt(c.size), OfInt(c.assetId), OfInt(c.assetOffset), c.release])
  }

  lemma OfChunkInjective(a: ChunkInfo, b: ChunkInfo)
    requires OfChunk(a) == OfChunk(b)
    ensures a == b
  {
    var x := [OfInt(a.offset), OfInt(a.size), OfInt(a.assetId), OfInt(a.assetOffset), a.release];
    var y := [OfInt(b.offset), OfInt(b.size), OfInt(b.assetId), OfInt(b.assetOffset), b.release];
    PackInjective(x, y);
    assert x[0] == y[0] && x[1] == y[1] && x[2] == y[2] && x[3] == y[3] && x[4] == y[4];
    OfIntInjective(a.offset, b.offset);
    OfIntInjective(a.size, b.size);
    OfIntInjective(a.assetId, b.assetId);
    OfIntInjective(a.assetOffset, b.assetOffset);
  }

  function OfRelease(r: ReleaseRef): string {
    Pack([OfInt(r.createdAt), OfInt(r.assetCount)])
  }

  lemma OfReleaseInjective(a: ReleaseRef, b: ReleaseRef)
    requires OfRelease(a) == OfRelease(b)
    ensures a == b
  {
    var x, y := [OfInt(a.createdAt), OfInt(a.assetCount)], [OfInt(b.createdAt), OfInt(b.assetCount)];
    PackInjective(x, y);
    assert x[0] == y[0] && x[1] == y[1];
    OfIntInjective(a.createdAt, b.createdAt);
    OfIntInjective(a.assetCount, b.assetCount);
  }

  // ----- maps as texts

  ghost predicate OneToOne<T(!new)>(f: T -> string) {
    forall a, b :: f(a) == f(b) ==> a == b
  }

  /** The entries of a map, in some order, each key before its value. */
  ghost function Entries<K, V>(m: map<K, V>, key: K -> string, value: V -> string): seq<string>
    decreases |m|
  {
    if m == map[] then []
    else
      var k :| k in m;
      [key(k), value(m[k])] + Entries(m - {k}, key, value)
  }

  lemma {:induction false} EntriesInjective<K(!new), V(!new)>(a: map<K, V>, b: map<K, V>, key: K -> string, value: V -> string)
    requires OneToOne(key) && OneToOne(value) && Entries(a, key, value) == Entries(b, key, value)
    ensures a == b
    decreases |a|
  {
    if a != map[] && b != map[] {
      var x, y := Entries(a, key, value), Entries(b, key, value);
      var k :| k in a && x == [key(k), value(a[k])] + Entries(a - {k}, key, value);
      var l :| l in b && y == [key(l), value(b[l])] + Entries(b - {l}, key, value);
      assert x[0] == key(k) && y[0] == key(l) && x[1] == value(a[k]) && y[1] == value(b[l]);
      assert x[2..] == Entries(a - {k}, key, value) && y[2..] == Entries(b - {l}, key, value);
      EntriesInjective(a - {k}, b - {l}, key, value);
      assert a == (a - {k})[k := a[k]] && b == (b - {l})[l := b[l]];
    }
  }

  ghost function OfMap<K, V>(m: map<K, V>, key: K -> string, value: V -> string): string {
    Pack(Entries(m, key, value))
  }

  lemma OfMapInjective<K(!new), V(!new)>(a: map<K, V>, b: map<K, V>, key: K -> string, value: V -> string)
    requires OneToOne(key) && OneToOne(value) && OfMap(a, key, value) == OfMap(b, key, value)
    ensures a == b
  {
    PackInjective(Entries(a, key, value), Entries(b, key, value));
    EntriesInjective(a, b, key, value);
  }

  function Same(s: string): string {
    s
  }

  lemma AllOneToOne()
    ensures OneToOne(Same) && OneToOne(OfInt) && OneToOne(OfFile) && OneToOne(OfChunk) && OneToOne(OfRelease)
  {
    forall a, b | OfInt(a) == OfInt(b) ensures a == b { OfIntInjective(a, b); }
    forall a, b | OfFile(a) == OfFile(b) ensures a == b { OfFileInjective(a, b); }
    forall a, b | OfChunk(a) == OfChunk(b) ensures a == b { OfChunkInjective(a, b); }
    forall a, b | OfRelease(a) == OfRelease(b) ensures a == b { OfReleaseInjective(a, b); }
  }

  // ----- the objects

  ghost function OfNode(n: TreeNode): Data {
    Pack([OfDir(n.meta), OfMap(n.files, Same, OfFile), OfMap(n.subdirs, Same, Same)])
  }

  ghost function OfBucket(b: ChunkBucket): Data {
    Pack([OfInt(b.index), OfMap(b.chunks, OfInt, OfChunk)])
  }

  ghost function OfReleases(r: map<string, ReleaseRef>): Data {
    OfMap(r, Same, OfRelease)
  }

  lemma OfNodeInjective(a: TreeNode, b: TreeNode)
    requires OfNode(a) == OfNode(b)
    ensures a == b
  {
    var x := [OfDir(a.meta), OfMap(a.files, Same, OfFile), OfMap(a.subdirs, Same, Same)];
    var y := [OfDir(b.meta), OfMap(b.files, Same, OfFile), OfMap(b.subdirs, Same, Same)];
    PackInjective(x, y);
    assert x[0] == y[0] && x[1] == y[1] && x[2] == y[2];
    AllOneToOne();
    OfDirInjective(a.meta, b.meta);
    OfMapInjective(a.files, b.files, Same, OfFile);
    OfMapInjective(a.subdirs, b.subdirs, Same, Same);
  }

  lemma OfBucketInjective(a: ChunkBucket, b: ChunkBucket)
    requires OfBucket(a) == OfBucket(b)
    ensures a == b
  {
    var x, y := [OfInt(a.index), OfMap(a.chunks, OfInt, OfChunk)], [OfInt(b.index), OfMap(b.chunks, OfInt, OfChunk)];
    PackInjective(x, y);
    assert x[0] == y[0] && x[1] == y[1];
    AllOneToOne();
    OfIntInjective(a.index, b.index);
    OfMapInjective(a.chunks, b.chunks, OfInt, OfChunk);
  }

  lemma OfReleasesInjective(a: map<string, ReleaseRef>, b: map<string, ReleaseRef>)
    requires OfReleases(a) == OfReleases(b)
    ensures a == b
  {
    AllOneToOne();
    OfMapInjective(a, b, Same, OfRelease);
  }

  ghost function NodeFrom(d: Data): (r: Option<TreeNode>)
    ensures r.Some? ==> OfNode(r.value) == d
    ensures r == None ==> forall x :: OfNode(x) != d
  {
    if x :| OfNode(x) == d then Some(x) else None
  }

  ghost function BucketFrom(d: Data): (r: Option<ChunkBucket>)
    ensures r.Some? ==> OfBucket(r.value) == d
    ensures r == None ==> forall x :: OfBucket(x) != d
  {
    if x :| OfBucket(x) == d then Some(x) else None
  }

  ghost function ReleasesFrom(d: Data): (r: Option<map<string, ReleaseRef>>)
    ensures r.Some? ==> OfReleases(r.value) == d
    ensures r == None ==> forall x :: OfReleases(x) != d
  {
    if x :| OfReleases(x) == d then Some(x) else None
  }

  ghost function LengthCodec(): Codec {
    Codec(n => OfNode(n), d => NodeFrom(d), b => OfBucket(b), d => BucketFrom(d), r => OfReleases(r), d => ReleasesFrom(d),
      d => "#" + d)
  }

  lemma NodeBack(n: TreeNode)
    ensures NodeFrom(OfNode(n)) == Some(n)
  {
    OfNodeInjective(NodeFrom(OfNode(n)).value, n);
  }

  lemma BucketBack(b: ChunkBucket)
    ensures BucketFrom(OfBucket(b)) == Some(b)
  {
    OfBucketInjective(BucketFrom(OfBucket(b)).value, b);
  }

  lemma ReleasesBack(r: map<string, ReleaseRef>)
    ensures ReleasesFrom(OfReleases(r)) == Some(r)
  {
    OfReleasesInjective(ReleasesFrom(OfReleases(r)).value, r);
  }

  lemma MarkInjective(x: Data, y: Data)
    ensures "#" + x == "#" + y ==> x == y
  {
    assert ("#" + x)[1..] == x && ("#" + y)[1..] == y;
  }

  /** What is assumed of the serialization and the hash can be had. */
  lemma CodecExists()
    ensures GoodCodec(LengthCodec())
  {
    var c := LengthCodec();
    forall n: TreeNode ensures c.decNode(c.encNode(n)) == Some(n) {
      NodeBack(n);
    }
    forall b: ChunkBucket ensures c.decBucket(c.encBucket(b)) == Some(b) {
      BucketBack(b);
    }
    forall r: map<string, ReleaseRef> ensures c.decReleases(c.encReleases(r)) == Some(r) {
      ReleasesBack(r);
    }
    forall x: Data, y: Data | c.hash(x) == c.hash(y) ensures x == y {
      MarkInjective(x, y);
    }
  }
}
