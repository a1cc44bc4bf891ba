/** The flat metadata model shared by the index, the resolver and the subtree verbs. A stored
    path is the list of its components; the empty list is the root. */
module RepoTree {
  import opened Options

  type Path = seq<string>

  /** A symlink target, split at its slashes: it may hold empty parts, "." and "..". */
  datatype Target = Target(absolute: bool, parts: seq<string>)

  datatype FileMeta = FileMeta(
    inode: nat, size: nat, chunks: seq<int>, link: Option<Target>, mode: nat, modifiedAt: int, changedAt: int)

  datatype DirMeta = DirMeta(inode: nat, mode: nat, modifiedAt: int, changedAt: int)

  datatype ChunkInfo = ChunkInfo(offset: int, size: int, assetId: int, assetOffset: int, release: string)

  datatype ReleaseRef = ReleaseRef(createdAt: int, assetCount: int)

  datatype Tree = Tree(
    root: DirMeta,
    dirs: map<Path, DirMeta>,
    files: map<Path, FileMeta>,
    chunks: map<int, ChunkInfo>,
    releases: map<string, ReleaseRef>)

  function Parent(p: Path): Path {
    if p == [] then [] else p[..|p| - 1]
  }

  function Base(p: Path): string
    requires p != []
  {
    p[|p| - 1]
  }

  predicate IsChild(d: Path, p: Path) {
    p != [] && Parent(p) == d
  }

  /** The names of the entries of `keys` directly below `d`. */
  function ChildNames(keys: set<Path>, d: Path): (names: set<string>)
    ensures forall n :: n in names <==> d + [n] in keys
  {
    var names := set p | p in keys && IsChild(d, p) :: Base(p);
    assert forall n :: n in names <==> d + [n] in keys by {
      forall n ensures n in names <==> d + [n] in keys {
        if n in names {
          var p :| p in keys && IsChild(d, p) && Base(p) == n;
          assert p == d + [n];
        }
        if d + [n] in keys {
          assert IsChild(d, d + [n]) && Base(d + [n]) == n;
        }
      }
    }
    names
  }

  /** A bound on the depth of the stored directories. */
  ghost function Deepest(keys: set<Path>): (n: nat)
    ensures forall p :: p in keys ==> |p| <= n
  {
    if keys == {} then 0
    else
      var p :| p in keys;
      var n := Deepest(keys - {p});
      if |p| <= n then n else |p|
  }
}
