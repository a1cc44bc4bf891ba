/** The derived indexes of a tree: kept exact by each tracked mutation, shared read-only with
    clones, rebuilt when stale. */
module DerivedIndex {
  import opened Options
  import opened RepoTree
  import opened SortedNames

  // ----- stored paths as the maps key them

  function LastSlash(s: string): (i: int)
    ensures -1 <= i < |s|
  {
    if s == "" then -1 else if s[|s| - 1] == '/' then |s| - 1 else LastSlash(s[..|s| - 1])
  }

  /** The directory part of a normalized key. */
  function ParentKey(s: string): string {
    if LastSlash(s) < 0 then "" else s[..LastSlash(s)]
  }

  lemma {:induction false} LastSlashOf(d: string, n: string)
    requires '/' !in n
    ensures LastSlash(n) == -1 && LastSlash(d + "/" + n) == |d|
    decreases |n|
  {
    if n == "" {
      assert d + "/" + n == d + "/";
    } else {
      var k := |n| - 1;
      assert n[k] in n;
      assert forall c :: c in n[..k] ==> c in n;
      LastSlashOf(d, n[..k]);
      assert (d + "/" + n)[..|d| + 1 + k] == d + "/" + n[..k];
    }
  }

  /** A name without a slash lies in the root, and a name behind a directory and a slash in that
      directory. */
  lemma ParentKeyOf(d: string, n: string)
    requires '/' !in n
    ensures ParentKey(n) == "" && ParentKey(d + "/" + n) == d
  {
    LastSlashOf(d, n);
    assert (d + "/" + n)[..|d|] == d;
  }

  lemma LastBehind(s: string, i: int)
    requires s != "" && -1 <= i < |s| - 1
    ensures s[i + 1..] == s[..|s| - 1][i + 1..] + [s[|s| - 1]]
  {
  }

  lemma {:induction false} AfterLastSlash(s: string)
    ensures '/' !in s[LastSlash(s) + 1..] && (LastSlash(s) >= 0 ==> s[LastSlash(s)] == '/')
    decreases |s|
  {
    if s != "" && s[|s| - 1] != '/' {
      var t, i := s[..|s| - 1], LastSlash(s);
      AfterLastSlash(t);
      LastBehind(s, i);
      assert LastSlash(t) == i;
    }
  }

  /** The keys of a directory: a name behind it and a slash, or in the root the bare name. */
  lemma ChildIff(s: string, path: string)
    requires s == "" || s[0] != '/'
    ensures ParentKey(s) == path <==> exists n :: '/' !in n && s == if path == "" then n else path + "/" + n
  {
    var i := LastSlash(s);
    var name := s[i + 1..];
    AfterLastSlash(s);
    if i < 0 {
      assert s == name;
    } else {
      assert s == s[..i] + "/" + name;
    }
    if n :| '/' !in n && s == if path == "" then n else path + "/" + n {
      ParentKeyOf(path, n);
    }
  }

  function ParentOf<V>(entries: map<string, V>): map<string, string> {
    map k | k in entries :: ParentKey(k)
  }

  function InodeOf(files: map<string, FileMeta>): map<string, nat> {
    map k | k in files :: files[k].inode
  }

  lemma ParentOfPut<V>(was: map<string, V>, name: string, value: V)
    ensures ParentOf(was[name := value]) == ParentOf(was)[name := ParentKey(name)]
    ensures name in was ==> ParentOf(was[name := value]) == ParentOf(was)
  {
  }

  lemma ParentOfRemove<V>(was: map<string, V>, name: string)
    ensures ParentOf(was - {name}) == ParentOf(was) - {name}
  {
  }

  lemma InodeOfPut(was: map<string, FileMeta>, name: string, file: FileMeta)
    ensures InodeOf(was[name := file]) == InodeOf(was)[name := file.inode]
  {
  }

  lemma InodeOfRemove(was: map<string, FileMeta>, name: string)
    ensures InodeOf(was - {name}) == InodeOf(was) - {name}
  {
  }

  // ----- the objects

  /** A stored map. Its identity is part of the fingerprint. */
  class Table<V> {
    var entries: map<string, V>

    constructor (entries: map<string, V>)
      ensures this.entries == entries
    {
      this.entries := entries;
    }
  }

  class IndexMaps {
    var filesByInode: map<nat, seq<string>>
    var childDirs: map<string, seq<string>>
    var childFiles: map<string, seq<string>>

    constructor (filesByInode: map<nat, seq<string>>, childDirs: map<string, seq<string>>, childFiles: map<string, seq<string>>)
      ensures this.filesByInode == filesByInode && this.childDirs == childDirs && this.childFiles == childFiles
    {
      this.filesByInode, this.childDirs, this.childFiles := filesByInode, childDirs, childFiles;
    }

    /** The three indexes are what a full rebuild over these maps gives. */
    ghost predicate Exact(dirs: map<string, DirMeta>, files: map<string, FileMeta>)
      reads this
    {
      && IsGrouping(ParentOf(dirs), childDirs)
      && IsGrouping(ParentOf(files), childFiles)
      && IsGrouping(InodeOf(files), filesByInode)
    }
  }

  class Derived {
    var idxDirty: bool
    var owner: Repo?
    var mapsShared: bool
    var index: IndexMaps?
    var dirsRef: Table?<DirMeta>
    var dirsLen: nat
    var filesRef: Table?<FileMeta>
    var filesLen: nat

    constructor (idxDirty: bool, owner: Repo?)
      ensures this.idxDirty == idxDirty && this.owner == owner && !mapsShared && index == null
    {
      this.idxDirty, this.owner, mapsShared, index := idxDirty, owner, false, null;
      dirsRef, dirsLen, filesRef, filesLen := null, 0, null, 0;
    }
  }

  class Repo {
    var dirs: Table<DirMeta>
    var files: Table<FileMeta>
    var derived: Derived?

    constructor (dirs: Table<DirMeta>, files: Table<FileMeta>)
      ensures this.dirs == dirs && this.files == files && derived == null
    {
      this.dirs, this.files, derived := dirs, files, null;
    }

    /** The index maps this tree may write: those no clone reads. */
    ghost function OwnIndex(): set<IndexMaps>
      reads this, derived
    {
      if derived == null || derived.index == null || derived.mapsShared then {} else {derived.index}
    }

    /** What an operation may do to this tree's own objects: its maps stay where they are, its
        state and index maps stay or are replaced by new ones, and what is shared stays shared. */
    twostate predicate Settled()
      reads this, derived
    {
      && dirs == old(dirs) && files == old(files)
      && (derived != old(derived) ==> derived != null && fresh(derived))
      && (derived != null && derived.index != null ==>
        || fresh(derived.index)
        || (old(derived) != null && derived.index == old(derived.index) && (old(derived.mapsShared) ==> derived.mapsShared)))
    }

    predicate IndexFresh()
      reads this, derived, dirs, files
    {
      && derived != null && !derived.idxDirty
      && derived.dirsRef == dirs && derived.dirsLen == |dirs.entries|
      && derived.filesRef == files && derived.filesLen == |files.entries|
    }

    /** A state that is not dirty describes these stored maps exactly; it is owned by this tree,
        or is a clone's view of shared index maps. */
    ghost predicate Tracks(dirEntries: map<string, DirMeta>, fileEntries: map<string, FileMeta>)
      reads this, derived, if derived == null then {} else {derived.index}
    {
      derived != null ==>
        && (derived.owner == this || derived.owner == null)
        && (!derived.idxDirty ==>
          && derived.dirsRef == dirs && derived.dirsLen == |dirEntries|
          && derived.filesRef == files && derived.filesLen == |fileEntries|
          && derived.index != null && derived.index.Exact(dirEntries, fileEntries)
          && (derived.owner == null ==> derived.mapsShared))
    }

    ghost predicate Valid()
      reads this, dirs, files, derived, if derived == null then {} else {derived.index}
    {
      Tracks(dirs.entries, files.entries)
    }

    // ----- index.go

    /** A state this tree owns; anything else is replaced by a private dirty one. */
    method EnsureDerived() returns (d: Derived)
      requires derived != null ==> derived.owner == this || derived.owner == null
      modifies this
      ensures Settled() && d == derived && d.owner == this
      ensures if old(derived) != null && old(derived.owner) == this then d == old(derived) else fresh(d) && d.idxDirty && d.index == null
    {
      if derived == null || derived.owner != this {
        derived := new Derived(true, this);
      }
      d := derived;
    }

    method InvalidateIndexes()
      requires Valid()
      modifies this, derived
      ensures Valid() && !IndexFresh() && dirs == old(dirs) && files == old(files)
      ensures dirs.entries == old(dirs.entries) && files.entries == old(files.entries)
      ensures Settled()
    {
      var d := EnsureDerived();
      d.idxDirty := true;
    }

    /** The state an incremental update may keep exact, or null: a stale one is left stale, and one
        whose maps a clone reads is dropped. */
    method IndexForIncremental() returns (d: Derived?)
      requires derived != null ==> derived.owner == this || derived.owner == null
      requires derived != null && derived.owner == this && !derived.idxDirty ==> derived.index != null
      modifies this, derived
      ensures Settled()
      ensures d == null ==> derived != null && derived.owner == this && derived.idxDirty
      ensures old(derived) != null && old(derived.owner) == this && !old(derived.idxDirty) && !old(derived.mapsShared) ==> d != null
      ensures d != null ==>
        d == derived && d == old(derived) && d.owner == this && !d.idxDirty && !d.mapsShared && d.index != null && unchanged(d)
    {
      var state := EnsureDerived();
      if state.idxDirty {
        return null;
      }
      if state.mapsShared {
        state.idxDirty := true;
        state.index := null;
        return null;
      }
      d := state;
    }

    method SyncIndexFingerprint(d: Derived)
      modifies d
      ensures d.idxDirty == old(d.idxDirty) && d.owner == old(d.owner) && d.mapsShared == old(d.mapsShared) && d.index == old(d.index)
      ensures d.dirsRef == dirs && d.dirsLen == |dirs.entries| && d.filesRef == files && d.filesLen == |files.entries|
    {
      d.dirsRef, d.dirsLen := dirs, |dirs.entries|;
      d.filesRef, d.filesLen := files, |files.entries|;
    }

    /** The state `d` describes the given maps and may be updated in place. */
    ghost predicate Ready(d: Derived, dirEntries: map<string, DirMeta>, fileEntries: map<string, FileMeta>)
      reads this, d, d.index
    {
      && derived == d && d.owner == this && !d.idxDirty && !d.mapsShared && d.index != null
      && d.index.Exact(dirEntries, fileEntries)
    }

    /** Called after the map write; `was` is the map before it. */
    method TrackDirPut(path: string, hadOld: bool, ghost was: map<string, DirMeta>)
      requires Tracks(was, files.entries) && hadOld == (path in was) && path in dirs.entries
      requires dirs.entries == was[path := dirs.entries[path]]
      modifies this, derived, OwnIndex()
      ensures Valid() && Settled() && dirs.entries == old(dirs.entries) && files.entries == old(files.entries)
    {
      ParentOfPut(was, path, dirs.entries[path]);
      var d := IndexForIncremental();
      if d != null && !hadOld {
        UpdateDirPut(d, path, was);
      }
    }

    method UpdateDirPut(d: Derived, path: string, ghost was: map<string, DirMeta>)
      requires Ready(d, was, files.entries) && path !in was
      requires ParentOf(dirs.entries) == ParentOf(was)[path := ParentKey(path)]
      modifies d, d.index`childDirs
      ensures Valid() && derived == d && d.owner == this && d.index == old(d.index) && d.mapsShared == old(d.mapsShared)
    {
      DirPutParents(d.index, path, was);
      SyncIndexFingerprint(d);
    }

    static method DirPutParents(x: IndexMaps, path: string, ghost was: map<string, DirMeta>)
      requires IsGrouping(ParentOf(was), x.childDirs) && path !in was
      modifies x`childDirs
      ensures IsGrouping(ParentOf(was)[path := ParentKey(path)], x.childDirs)
    {
      x.childDirs := GroupInsert(x.childDirs, ParentKey(path), path, ParentOf(was));
    }

    method TrackDirRemove(path: string, ghost was: map<string, DirMeta>)
      requires Tracks(was, files.entries) && path in was && dirs.entries == was - {path}
      modifies this, derived, OwnIndex()
      ensures Valid() && Settled() && dirs.entries == old(dirs.entries) && files.entries == old(files.entries)
    {
      ParentOfRemove(was, path);
      var d := IndexForIncremental();
      if d != null {
        UpdateDirRemove(d, path, was);
      }
    }

    method UpdateDirRemove(d: Derived, path: string, ghost was: map<string, DirMeta>)
      requires Ready(d, was, files.entries) && path in was && ParentOf(dirs.entries) == ParentOf(was) - {path}
      modifies d, d.index`childDirs
      ensures Valid() && derived == d && d.owner == this && d.index == old(d.index) && d.mapsShared == old(d.mapsShared)
    {
      DirRemoveParents(d.index, path, was);
      SyncIndexFingerprint(d);
    }

    static method DirRemoveParents(x: IndexMaps, path: string, ghost was: map<string, DirMeta>)
      requires IsGrouping(ParentOf(was), x.childDirs) && path in was
      modifies x`childDirs
      ensures IsGrouping(ParentOf(was) - {path}, x.childDirs)
    {
      x.childDirs := GroupRemove(x.childDirs, ParentKey(path), path, ParentOf(was));
    }

    method TrackFilePut(name: string, before: Option<FileMeta>, ghost was: map<string, FileMeta>)
      requires Tracks(dirs.entries, was) && before == (if name in was then Some(was[name]) else None) && name in files.entries
      requires files.entries == was[name := files.entries[name]]
      modifies this, derived, OwnIndex()
      ensures Valid() && Settled() && dirs.entries == old(dirs.entries) && files.entries == old(files.entries)
    {
      ParentOfPut(was, name, files.entries[name]);
      InodeOfPut(was, name, files.entries[name]);
      var d := IndexForIncremental();
      if d != null {
        UpdateFilePut(d, name, before, was);
      }
    }

    method UpdateFilePut(d: Derived, name: string, before: Option<FileMeta>, ghost was: map<string, FileMeta>)
      requires Ready(d, dirs.entries, was) && before == (if name in was then Some(was[name]) else None) && name in files.entries
      requires ParentOf(files.entries) == ParentOf(was)[name := ParentKey(name)]
      requires InodeOf(files.entries) == InodeOf(was)[name := files.entries[name].inode]
      modifies d, d.index`childFiles, d.index`filesByInode
      ensures Valid() && derived == d && d.owner == this && d.index == old(d.index) && d.mapsShared == old(d.mapsShared)
    {
      FilePutBoth(d.index, name, before, files.entries[name].inode, was);
      SyncIndexFingerprint(d);
    }

    static method FilePutBoth(x: IndexMaps, name: string, before: Option<FileMeta>, inode: nat, ghost was: map<string, FileMeta>)
      requires IsGrouping(ParentOf(was), x.childFiles) && IsGrouping(InodeOf(was), x.filesByInode)
      requires before == if name in was then Some(was[name]) else None
      modifies x`childFiles, x`filesByInode
      ensures IsGrouping(ParentOf(was)[name := ParentKey(name)], x.childFiles)
      ensures IsGrouping(InodeOf(was)[name := inode], x.filesByInode)
    {
      FilePutInodes(x, name, before, inode, was);
      FilePutParents(x, name, before, was);
    }

    /** A new file joins its directory's list. */
    static method FilePutParents(x: IndexMaps, name: string, before: Option<FileMeta>, ghost was: map<string, FileMeta>)
      requires IsGrouping(ParentOf(was), x.childFiles) && (before.Some? <==> name in was)
      modifies x`childFiles
      ensures IsGrouping(ParentOf(was)[name := ParentKey(name)], x.childFiles)
    {
      if before.None? {
        x.childFiles := GroupInsert(x.childFiles, ParentKey(name), name, ParentOf(was));
      } else {
        assert ParentOf(was)[name := ParentKey(name)] == ParentOf(was);
      }
    }

    /** A file whose inode changed leaves the old family before it joins the new one. */
    static method FilePutInodes(x: IndexMaps, name: string, before: Option<FileMeta>, inode: nat, ghost was: map<string, FileMeta>)
      requires IsGrouping(InodeOf(was), x.filesByInode)
      requires before == if name in was then Some(was[name]) else None
      modifies x`filesByInode
      ensures IsGrouping(InodeOf(was)[name := inode], x.filesByInode)
    {
      ghost var of := InodeOf(was);
      if before.Some? && before.value.inode != inode {
        x.filesByInode := GroupRemove(x.filesByInode, before.value.inode, name, of);
        of := of - {name};
      }
      x.filesByInode := GroupInsert(x.filesByInode, inode, name, of);
      assert of[name := inode] == InodeOf(was)[name := inode];
    }

    method TrackFileRemove(name: string, before: FileMeta, ghost was: map<string, FileMeta>)
      requires Tracks(dirs.entries, was) && name in was && before == was[name] && files.entries == was - {name}
      modifies this, derived, OwnIndex()
      ensures Valid() && Settled() && dirs.entries == old(dirs.entries) && files.entries == old(files.entries)
    {
      ParentOfRemove(was, name);
      InodeOfRemove(was, name);
      var d := IndexForIncremental();
      if d != null {
        UpdateFileRemove(d, name, before.inode, was);
      }
    }

    method UpdateFileRemove(d: Derived, name: string, inode: nat, ghost was: map<string, FileMeta>)
      requires Ready(d, dirs.entries, was) && name in was && was[name].inode == inode
      requires ParentOf(files.entries) == ParentOf(was) - {name} && InodeOf(files.entries) == InodeOf(was) - {name}
      modifies d, d.index`childFiles, d.index`filesByInode
      ensures Valid() && derived == d && d.owner == this && d.index == old(d.index) && d.mapsShared == old(d.mapsShared)
    {
      FileRemoveBoth(d.index, name, inode, was);
      SyncIndexFingerprint(d);
    }

    static method FileRemoveBoth(x: IndexMaps, name: string, inode: nat, ghost was: map<string, FileMeta>)
      requires IsGrouping(ParentOf(was), x.childFiles) && IsGrouping(InodeOf(was), x.filesByInode)
      requires name in was && was[name].inode == inode
      modifies x`childFiles, x`filesByInode
      ensures IsGrouping(ParentOf(was) - {name}, x.childFiles) && IsGrouping(InodeOf(was) - {name}, x.filesByInode)
    {
      x.childFiles := GroupRemove(x.childFiles, ParentKey(name), name, ParentOf(was));
      x.filesByInode := GroupRemove(x.filesByInode, inode, name, InodeOf(was));
    }

    // ----- metadata_entries.go: a map write followed by its tracker

    method WriteDir(path: string, dir: DirMeta)
      requires Valid()
      modifies this, dirs, derived, OwnIndex()
      ensures Valid() && Settled()
      ensures dirs.entries == old(dirs.entries)[path := dir] && files.entries == old(files.entries)
    {
      ghost var was := dirs.entries;
      var hadOld := path in dirs.entries;
      dirs.entries := dirs.entries[path := dir];
      TrackDirPut(path, hadOld, was);
    }

    method RemoveDirectory(path: string) returns (existed: bool)
      requires Valid()
      modifies this, dirs, derived, OwnIndex()
      ensures Valid() && Settled() && existed == (path in old(dirs.entries))
      ensures dirs.entries == old(dirs.entries) - {path} && files.entries == old(files.entries)
    {
      ghost var was := dirs.entries;
      if path !in dirs.entries {
        assert dirs.entries == dirs.entries - {path};
        return false;
      }
      dirs.entries := dirs.entries - {path};
      TrackDirRemove(path, was);
      existed := true;
    }

    method WriteFile(name: string, file: FileMeta)
      requires Valid()
      modifies this, files, derived, OwnIndex()
      ensures Valid() && Settled()
      ensures files.entries == old(files.entries)[name := file] && dirs.entries == old(dirs.entries)
    {
      ghost var was := files.entries;
      var before := if name in files.entries then Some(files.entries[name]) else None;
      files.entries := files.entries[name := file];
      TrackFilePut(name, before, was);
    }

    method RemoveFile(name: string) returns (existed: bool)
      requires Valid()
      modifies this, files, derived, OwnIndex()
      ensures Valid() && Settled() && existed == (name in old(files.entries))
      ensures files.entries == old(files.entries) - {name} && dirs.entries == old(dirs.entries)
    {
      ghost var was := files.entries;
      if name !in files.entries {
        assert files.entries == files.entries - {name};
        return false;
      }
      var before := files.entries[name];
      files.entries := files.entries - {name};
      TrackFileRemove(name, before, was);
      existed := true;
    }

    /** An in-place value write that changes no key and no inode; only the size cache hears of it. */
    method TouchFile(name: string, file: FileMeta) returns (existed: bool)
      requires Valid() && (name in files.entries ==> file.inode == files.entries[name].inode)
      modifies this, files
      ensures Valid() && Settled() && existed == (name in old(files.entries)) && dirs.entries == old(dirs.entries)
      ensures files.entries == if existed then old(files.entries)[name := file] else old(files.entries)
    {
      existed := name in files.entries;
      if existed {
        ghost var was := files.entries;
        files.entries := files.entries[name := file];
        assert files.entries.Keys == was.Keys;
        assert ParentOf(files.entries) == ParentOf(was) && InodeOf(files.entries) == InodeOf(was);
        var _ := EnsureDerived();
      }
    }

    method RebuildIndexes()
      modifies this
      ensures dirs == old(dirs) && files == old(files) && Valid() && IndexFresh()
      ensures fresh(derived) && derived.owner == this && !derived.mapsShared && fresh(derived.index)
    {
      var byInode := GroupAll(InodeOf(files.entries));
      var childDirs := GroupAll(ParentOf(dirs.entries));
      var childFiles := GroupAll(ParentOf(files.entries));
      var d := new Derived(false, this);
      d.index := new IndexMaps(byInode, childDirs, childFiles);
      SyncIndexFingerprint(d);
      derived := d;
    }

    method EnsureIndexes()
      requires Valid()
      modifies this
      ensures dirs == old(dirs) && files == old(files) && Valid() && IndexFresh()
      ensures old(IndexFresh()) ==> derived == old(derived)
      ensures !old(IndexFresh()) ==> fresh(derived) && fresh(derived.index)
    {
      if !IndexFresh() {
        RebuildIndexes();
      }
    }

    /** The immediate children, in path order. */
    method DirectoryChildren(path: string) returns (subdirs: seq<string>, names: seq<string>)
      requires Valid()
      modifies this
      ensures dirs == old(dirs) && files == old(files) && Valid() && IndexFresh()
      ensures Settled()
      ensures Sorted(subdirs) && forall s :: s in subdirs <==> s in dirs.entries && ParentKey(s) == path
      ensures Sorted(names) && forall s :: s in names <==> s in files.entries && ParentKey(s) == path
      ensures forall s | s == "" || s[0] != '/' :: s in subdirs <==>
        s in dirs.entries && exists n :: '/' !in n && s == if path == "" then n else path + "/" + n
      ensures forall s | s == "" || s[0] != '/' :: s in names <==>
        s in files.entries && exists n :: '/' !in n && s == if path == "" then n else path + "/" + n
    {
      forall s | s == "" || s[0] != '/'
        ensures ParentKey(s) == path <==> exists n :: '/' !in n && s == if path == "" then n else path + "/" + n
      {
        ChildIff(s, path);
      }
      EnsureIndexes();
      subdirs, names := ListAt(derived.index.childDirs, path), ListAt(derived.index.childFiles, path);
      GroupMembers(ParentOf(dirs.entries), derived.index.childDirs, path);
      GroupMembers(ParentOf(files.entries), derived.index.childFiles, path);
    }

    /** The names sharing an inode, in path order: the hard links of a file. */
    method FindFilesByInode(inode: nat) returns (names: seq<string>)
      requires Valid()
      modifies this
      ensures dirs == old(dirs) && files == old(files) && Valid() && IndexFresh()
      ensures Settled()
      ensures Sorted(names) && forall s :: s in names <==> s in files.entries && files.entries[s].inode == inode
    {
      EnsureIndexes();
      names := ListAt(derived.index.filesByInode, inode);
      GroupMembers(InodeOf(files.entries), derived.index.filesByInode, inode);
    }

    /** Stored maps are copied; an index not marked dirty is shared, and marked so on both sides. */
    method Clone() returns (clone: Repo)
      modifies (if derived == null then {} else {derived})`mapsShared
      ensures fresh(clone) && fresh(clone.dirs) && fresh(clone.files)
      ensures clone.dirs.entries == dirs.entries && clone.files.entries == files.entries
      ensures clone.derived == null <==> derived == null
      ensures derived != null ==> clone.derived != null && fresh(clone.derived) && SharedWith(clone)
      ensures derived != null && old(derived.mapsShared) ==> derived.mapsShared
    {
      var dirCopy := new Table(dirs.entries);
      var fileCopy := new Table(files.entries);
      clone := new Repo(dirCopy, fileCopy);
      if derived != null {
        var cd := Share(derived);
        clone.SyncIndexFingerprint(cd);
        clone.derived := cd;
      }
    }

    /** The clone's state: no owner yet, its own fingerprint, and the index maps if they count. */
    ghost predicate SharedWith(clone: Repo)
      requires derived != null && clone.derived != null
      reads this, derived, clone, clone.derived, clone.dirs, clone.files
    {
      && clone.derived.owner == null && clone.derived.idxDirty == derived.idxDirty
      && clone.derived.dirsRef == clone.dirs && clone.derived.dirsLen == |clone.dirs.entries|
      && clone.derived.filesRef == clone.files && clone.derived.filesLen == |clone.files.entries|
      && (if derived.idxDirty then clone.derived.index == null
          else clone.derived.index == derived.index && derived.mapsShared && clone.derived.mapsShared)
    }

    /** Between valid trees: nothing changes for the source, and the clone is as fresh as it was. */
    method CloneValid() returns (clone: Repo)
      requires Valid()
      modifies (if derived == null then {} else {derived})`mapsShared
      ensures Valid() && clone.Valid() && IndexFresh() == old(IndexFresh()) == clone.IndexFresh()
      ensures fresh(clone) && fresh(clone.dirs) && fresh(clone.files)
      ensures clone.dirs.entries == dirs.entries && clone.files.entries == files.entries
      ensures clone.derived == null <==> derived == null
      ensures derived != null ==> clone.derived != null && fresh(clone.derived) && SharedWith(clone)
      ensures derived != null && old(derived.mapsShared) ==> derived.mapsShared
    {
      clone := Clone();
    }

    /** The state handed to a clone: its owner is unknown yet, and what it can read is marked
        shared on both sides. */
    static method Share(d: Derived) returns (cd: Derived)
      modifies d`mapsShared
      ensures fresh(cd) && cd.owner == null && cd.idxDirty == d.idxDirty
      ensures if d.idxDirty then cd.index == null && d.mapsShared == old(d.mapsShared) else cd.index == d.index && d.mapsShared && cd.mapsShared
    {
      cd := new Derived(d.idxDirty, null);
      if !d.idxDirty {
        d.mapsShared := true;
        cd.mapsShared := true;
        cd.index := d.index;
      }
    }
  }

  // ----- any number of trees

  /** The trees own their maps and states; index maps appear in two trees only when both know it. */
  ghost predicate World(trees: seq<Repo>)
    reads trees, set m | m in trees :: m.dirs, set m | m in trees :: m.files, set m | m in trees :: m.derived
    reads set m | m in trees && m.derived != null :: m.derived.index
  {
    && (forall i :: 0 <= i < |trees| ==> trees[i].Valid())
    && (forall i, j :: 0 <= i < |trees| && 0 <= j < |trees| && i != j ==> Separate(trees[i], trees[j]))
  }

  ghost predicate Separate(a: Repo, b: Repo)
    reads a, b, a.derived, b.derived
  {
    && a != b && a.dirs != b.dirs && a.files != b.files
    && (a.derived != null && b.derived != null ==>
      && a.derived != b.derived
      && (a.derived.index != null && a.derived.index == b.derived.index ==> a.derived.mapsShared && b.derived.mapsShared))
  }

  datatype Op =
    | WriteDirOp(path: string, dir: DirMeta)
    | RemoveDirOp(path: string)
    | WriteFileOp(path: string, file: FileMeta)
    | RemoveFileOp(path: string)
    | InvalidateOp
    | RebuildOp
    | ReadOp(path: string)

  function DirsAfter(op: Op, dirs: map<string, DirMeta>): map<string, DirMeta> {
    match op
    case WriteDirOp(path, dir) => dirs[path := dir]
    case RemoveDirOp(path) => dirs - {path}
    case _ => dirs
  }

  function FilesAfter(op: Op, files: map<string, FileMeta>): map<string, FileMeta> {
    match op
    case WriteFileOp(path, file) => files[path := file]
    case RemoveFileOp(path) => files - {path}
    case _ => files
  }

  /** One operation on one tree. */
  method Perform(m: Repo, op: Op)
    requires m.Valid()
    modifies m, m.dirs, m.files, m.derived, m.OwnIndex()
    ensures m.Valid() && m.Settled()
    ensures m.dirs.entries == DirsAfter(op, old(m.dirs.entries)) && m.files.entries == FilesAfter(op, old(m.files.entries))
  {
    match op
    case WriteDirOp(path, dir) => m.WriteDir(path, dir);
    case RemoveDirOp(path) => var _ := m.RemoveDirectory(path);
    case WriteFileOp(path, file) => m.WriteFile(path, file);
    case RemoveFileOp(path) => var _ := m.RemoveFile(path);
    case InvalidateOp => m.InvalidateIndexes();
    case RebuildOp => m.RebuildIndexes();
    case ReadOp(path) => var _, _ := m.DirectoryChildren(path);
  }

  /** What a reader of `m` sees: its maps, and its indexes while they are fresh. */
  twostate predicate Untouched(m: Repo)
    reads m, m.dirs, m.files, m.derived, if m.derived == null then {} else {m.derived.index}
  {
    && m.dirs == old(m.dirs) && m.files == old(m.files) && m.derived == old(m.derived)
    && m.dirs.entries == old(m.dirs.entries) && m.files.entries == old(m.files.entries)
    && m.IndexFresh() == old(m.IndexFresh())
    && (m.derived != null ==> m.derived.index == old(m.derived.index))
    && (m.derived != null && m.derived.index != null ==>
      && m.derived.index.filesByInode == old(m.derived.index.filesByInode)
      && m.derived.index.childDirs == old(m.derived.index.childDirs)
      && m.derived.index.childFiles == old(m.derived.index.childFiles))
  }

  /** An operation on one tree changes nothing another tree stores or reads. */
  method Step(trees: seq<Repo>, k: nat, op: Op)
    requires World(trees) && k < |trees|
    modifies trees[k], trees[k].dirs, trees[k].files, trees[k].derived, trees[k].OwnIndex()
    ensures World(trees) && trees[k].Settled()
    ensures forall i :: 0 <= i < |trees| && i != k ==> Untouched(trees[i])
    ensures trees[k].dirs.entries == DirsAfter(op, old(trees[k].dirs.entries))
    ensures trees[k].files.entries == FilesAfter(op, old(trees[k].files.entries))
  {
    StepApart(trees, k, op);
    forall i, j | 0 <= i < |trees| && 0 <= j < |trees| && i != j && i != k && j != k ensures Separate(trees[i], trees[j]) {
      assert old(Separate(trees[i], trees[j]));
    }
  }

  method StepApart(trees: seq<Repo>, k: nat, op: Op)
    requires World(trees) && k < |trees|
    modifies trees[k], trees[k].dirs, trees[k].files, trees[k].derived, trees[k].OwnIndex()
    ensures trees[k].Valid() && trees[k].Settled()
    ensures forall i :: 0 <= i < |trees| && i != k ==>
      Untouched(trees[i]) && trees[i].Valid() && Separate(trees[k], trees[i]) && Separate(trees[i], trees[k])
    ensures trees[k].dirs.entries == DirsAfter(op, old(trees[k].dirs.entries))
    ensures trees[k].files.entries == FilesAfter(op, old(trees[k].files.entries))
  {
    Perform(trees[k], op);
    forall i | 0 <= i < |trees| && i != k
      ensures Untouched(trees[i]) && trees[i].Valid() && Separate(trees[k], trees[i]) && Separate(trees[i], trees[k])
    {
      assert old(Separate(trees[i], trees[k])) && old(Separate(trees[k], trees[i]));
    }
  }

  /** A clone of one tree of the world is apart from all of them, and leaves them as they are. */
  method CloneAlone(trees: seq<Repo>, k: nat) returns (clone: Repo)
    requires World(trees) && k < |trees|
    modifies (if trees[k].derived == null then {} else {trees[k].derived})`mapsShared
    ensures World(trees) && clone.Valid()
    ensures forall i :: 0 <= i < |trees| ==> Untouched(trees[i]) && Separate(trees[i], clone) && Separate(clone, trees[i])
    ensures clone.dirs.entries == trees[k].dirs.entries && clone.files.entries == trees[k].files.entries
    ensures clone.IndexFresh() == trees[k].IndexFresh() && NewClone(trees[k], clone)
  {
    clone := CloneApart(trees, k);
    forall i, j | 0 <= i < |trees| && 0 <= j < |trees| && i != j ensures Separate(trees[i], trees[j]) {
      assert old(Separate(trees[i], trees[j]));
    }
  }

  method CloneApart(trees: seq<Repo>, k: nat) returns (clone: Repo)
    requires World(trees) && k < |trees|
    modifies (if trees[k].derived == null then {} else {trees[k].derived})`mapsShared
    ensures clone.Valid() && forall i :: 0 <= i < |trees| ==> trees[i].Valid() && Untouched(trees[i])
    ensures forall i :: 0 <= i < |trees| ==> Separate(trees[i], clone) && Separate(clone, trees[i])
    ensures forall i :: 0 <= i < |trees| && trees[i].derived != null ==> (old(trees[i].derived.mapsShared) ==> trees[i].derived.mapsShared)
    ensures clone.dirs.entries == trees[k].dirs.entries && clone.files.entries == trees[k].files.entries
    ensures clone.IndexFresh() == trees[k].IndexFresh() && NewClone(trees[k], clone)
  {
    clone := trees[k].CloneValid();
    forall i | 0 <= i < |trees|
      ensures Untouched(trees[i]) && trees[i].Valid() && Separate(trees[i], clone) && Separate(clone, trees[i])
    {
      assert i != k ==> old(Separate(trees[i], trees[k])) && old(Separate(trees[k], trees[i]));
    }
  }

  /** A clone joins the world with the same contents; nothing else changes for any reader. */
  method CloneStep(trees: seq<Repo>, k: nat) returns (now: seq<Repo>)
    requires World(trees) && k < |trees|
    modifies (if trees[k].derived == null then {} else {trees[k].derived})`mapsShared
    ensures |now| == |trees| + 1 && now[..|trees|] == trees && World(now) && fresh(now[|trees|])
    ensures forall i :: 0 <= i < |trees| ==> Untouched(trees[i])
    ensures now[|trees|].dirs.entries == trees[k].dirs.entries && now[|trees|].files.entries == trees[k].files.entries
    ensures now[|trees|].IndexFresh() == trees[k].IndexFresh() && NewClone(trees[k], now[|trees|])
  {
    var clone := CloneAlone(trees, k);
    now := trees + [clone];
    Joined(trees, clone);
  }

  lemma Joined(trees: seq<Repo>, clone: Repo)
    requires World(trees) && clone.Valid()
    requires forall i :: 0 <= i < |trees| ==> Separate(trees[i], clone) && Separate(clone, trees[i])
    ensures World(trees + [clone])
  {
  }

  /** A fresh index equals a full rebuild, element for element. */
  lemma FreshIsRebuilt(m: Repo, rebuilt: IndexMaps)
    requires m.Valid() && m.IndexFresh() && rebuilt.Exact(m.dirs.entries, m.files.entries)
    ensures m.derived.index != null && m.derived.index.childDirs == rebuilt.childDirs
    ensures m.derived.index.childFiles == rebuilt.childFiles && m.derived.index.filesByInode == rebuilt.filesByInode
  {
    GroupingUnique(ParentOf(m.dirs.entries), m.derived.index.childDirs, rebuilt.childDirs);
    GroupingUnique(ParentOf(m.files.entries), m.derived.index.childFiles, rebuilt.childFiles);
    GroupingUnique(InodeOf(m.files.entries), m.derived.index.filesByInode, rebuilt.filesByInode);
  }

  // ----- the limits of the fingerprint

  /** The same names under the same directories and inodes: all an index shows of a file map. */
  predicate Alike(a: map<string, FileMeta>, b: map<string, FileMeta>) {
    ParentOf(a) == ParentOf(b) && InodeOf(a) == InodeOf(b)
  }

  /** An index that is exact for one file map is exact for another exactly when they are alike. */
  lemma ExactIff(x: IndexMaps, dirs: map<string, DirMeta>, was: map<string, FileMeta>, other: map<string, FileMeta>)
    requires x.Exact(dirs, was)
    ensures x.Exact(dirs, other) <==> Alike(was, other)
  {
    if x.Exact(dirs, other) {
      GroupedOnce(ParentOf(was), ParentOf(other), x.childFiles);
      GroupedOnce(InodeOf(was), InodeOf(other), x.filesByInode);
    }
  }

  lemma AlikeIff(was: map<string, FileMeta>, other: map<string, FileMeta>, name: string, file: FileMeta)
    requires name !in was && name !in other
    ensures Alike(was[name := file], other[name := file]) <==> Alike(was, other)
  {
    assert was[name := file] - {name} == was && other[name := file] - {name} == other;
    ParentOfRemove(was[name := file], name);
    ParentOfRemove(other[name := file], name);
    InodeOfRemove(was[name := file], name);
    InodeOfRemove(other[name := file], name);
    ParentOfPut(was, name, file);
    ParentOfPut(other, name, file);
    InodeOfPut(was, name, file);
    InodeOfPut(other, name, file);
  }

  /** The fingerprint is a second guard, meant to catch a whole map swapped in untracked, which no
      operation does. The swapped tree itself does notice. A clone made before it rebuilds takes the
      index along under a fingerprint of its own, and is fresh: rightly so exactly when the two maps
      are alike. */
  method SwapThenClone(m: Repo, other: Table<FileMeta>) returns (clone: Repo)
    requires m.Valid() && m.derived != null && !m.derived.idxDirty && other != m.files
    modifies m, m.derived
    ensures !m.IndexFresh() && clone.IndexFresh()
    ensures clone.files.entries == other.entries && clone.dirs.entries == m.dirs.entries == old(m.dirs.entries)
    ensures m.derived == old(m.derived) && m.derived.index == old(m.derived.index) && clone.derived.index == m.derived.index
    ensures clone.derived.index != null
    ensures clone.derived.index.Exact(clone.dirs.entries, clone.files.entries) <==> Alike(old(m.files.entries), other.entries)
  {
    ghost var was := m.files.entries;
    m.files := other;
    clone := m.Clone();
    ExactIff(clone.derived.index, m.dirs.entries, was, other.entries);
  }

  /** Nor does the tracker of a put look at the fingerprint before it renews it: the first put after a
      swap makes the swapped tree's own index fresh, rightly so exactly when the maps were alike. */
  method SwapThenPut(m: Repo, other: Table<FileMeta>, name: string, file: FileMeta)
    requires m.Valid() && m.derived != null && m.derived.owner == m && !m.derived.idxDirty && !m.derived.mapsShared
    requires other != m.files && name !in m.files.entries && name !in other.entries
    modifies m, other, m.derived, m.derived.index
    ensures m.IndexFresh() && m.files == other && m.files.entries == old(other.entries)[name := file]
    ensures m.dirs.entries == old(m.dirs.entries) && m.derived.index != null
    ensures m.derived.index.Exact(m.dirs.entries, old(m.files.entries)[name := file])
    ensures m.derived.index.Exact(m.dirs.entries, m.files.entries) <==> Alike(old(m.files.entries), old(other.entries))
  {
    ghost var was, now := m.files.entries, other.entries;
    m.files := other;
    m.files.entries := m.files.entries[name := file];
    var d := m.IndexForIncremental();
    Repo.FilePutBoth(d.index, name, None, file.inode, was);
    m.SyncIndexFingerprint(d);
    PutAfterSwap(d.index, m.dirs.entries, was, now, name, file);
  }

  lemma PutAfterSwap(x: IndexMaps, dirs: map<string, DirMeta>, was: map<string, FileMeta>, now: map<string, FileMeta>, name: string,
                     file: FileMeta)
    requires name !in was && name !in now && IsGrouping(ParentOf(dirs), x.childDirs)
    requires IsGrouping(ParentOf(was)[name := ParentKey(name)], x.childFiles)
    requires IsGrouping(InodeOf(was)[name := file.inode], x.filesByInode)
    ensures x.Exact(dirs, was[name := file])
    ensures x.Exact(dirs, now[name := file]) <==> Alike(was, now)
  {
    ParentOfPut(was, name, file);
    InodeOfPut(was, name, file);
    ExactIff(x, dirs, was[name := file], now[name := file]);
    AlikeIff(was, now, name, file);
  }

  /** An empty tree with a fresh index, a map with one file swapped in: the clone is fresh, and lists
      no file at all. */
  method SwapThenCloneRun(file: FileMeta) returns (clone: Repo)
    ensures clone.IndexFresh() && "a" in clone.files.entries && clone.derived.index != null
    ensures ListAt(clone.derived.index.childFiles, "") == [] && ListAt(clone.derived.index.filesByInode, file.inode) == []
  {
    var dirs := new Table<DirMeta>(map[]);
    var files := new Table<FileMeta>(map[]);
    var other := new Table<FileMeta>(map["a" := file]);
    var m := new Repo(dirs, files);
    m.RebuildIndexes();
    clone := SwapThenClone(m, other);
    NothingListed(clone.derived.index.childFiles, ParentOf(files.entries), "");
    NothingListed(clone.derived.index.filesByInode, InodeOf(files.entries), file.inode);
  }

  lemma NothingListed<K(!new)>(g: map<K, seq<string>>, of: map<string, K>, k: K)
    requires IsGrouping(of, g) && forall n :: n !in of
    ensures ListAt(g, k) == []
  {
    GroupMembers(of, g, k);
    HeadIn(ListAt(g, k));
  }

  lemma GroupedAlike<K(!new)>(a: map<string, K>, b: map<string, K>, g: map<K, seq<string>>, name: string)
    requires IsGrouping(a, g) && IsGrouping(b, g) && name in a
    ensures name in b && b[name] == a[name]
  {
    assert name in ListAt(g, a[name]);
  }

  /** The groups determine what they group. */
  lemma GroupedOnce<K(!new)>(a: map<string, K>, b: map<string, K>, g: map<K, seq<string>>)
    requires IsGrouping(a, g) && IsGrouping(b, g)
    ensures a == b
  {
    forall name | name in a ensures name in b && b[name] == a[name] {
      GroupedAlike(a, b, g, name);
    }
    forall name | name in b ensures name in a {
      GroupedAlike(b, a, g, name);
    }
  }

  twostate predicate NewClone(m: Repo, new clone: Repo)
    reads m, m.derived, clone, clone.derived
  {
    && fresh(clone) && fresh(clone.dirs) && fresh(clone.files)
    && (clone.derived != null ==> fresh(clone.derived) && m.derived != null)
    && (clone.derived != null && clone.derived.index != null ==> clone.derived.index == m.derived.index)
  }

  datatype Command = OnTree(tree: nat, op: Op) | CloneTree(tree: nat)

  datatype Contents = Contents(dirs: map<string, DirMeta>, files: map<string, FileMeta>)

  /** Trees as plain values: each command acts on one of them, or copies one. */
  function ContentsAfter(cmd: Command, s: seq<Contents>): seq<Contents> {
    if cmd.tree >= |s| then s
    else match cmd
      case OnTree(k, op) => s[k := Contents(DirsAfter(op, s[k].dirs), FilesAfter(op, s[k].files))]
      case CloneTree(k) => s + [s[k]]
  }

  function ContentsAfterAll(cmds: seq<Command>, s: seq<Contents>): seq<Contents> {
    if cmds == [] then s else ContentsAfter(cmds[|cmds| - 1], ContentsAfterAll(cmds[..|cmds| - 1], s))
  }

  ghost predicate Holds(m: Repo, c: Contents)
    reads m, m.dirs, m.files
  {
    m.dirs.entries == c.dirs && m.files.entries == c.files
  }

  ghost predicate HoldAll(trees: seq<Repo>, s: seq<Contents>)
    reads trees, set m | m in trees :: m.dirs, set m | m in trees :: m.files
  {
    |trees| == |s| && forall i :: 0 <= i < |trees| ==> Holds(trees[i], s[i])
  }

  ghost function Only(o: object?): set<object> {
    if o == null then {} else {o}
  }

  ghost function Parts(m: Repo): set<object>
    reads m, m.derived
  {
    {m, m.dirs, m.files} + Only(m.derived) + (if m.derived == null then {} else Only(m.derived.index))
  }

  /** All objects of some trees. */
  ghost function Objects(trees: seq<Repo>): set<object>
    reads trees, set m | m in trees :: m.derived
  {
    set m, o | m in trees && o in Parts(m) :: o
  }

  /** Every interleaving of operations and clones on any number of trees behaves as on plain
      values that share nothing, and every index that is fresh is the exact one. */
  method Interleave(trees: seq<Repo>, cmds: seq<Command>, ghost s: seq<Contents>) returns (now: seq<Repo>)
    requires World(trees) && HoldAll(trees, s)
    modifies Objects(trees)
    ensures World(now) && HoldAll(now, ContentsAfterAll(cmds, s))
  {
    now := trees;
    for n := 0 to |cmds|
      invariant World(now) && HoldAll(now, ContentsAfterAll(cmds[..n], s))
      invariant forall o :: o in Objects(now) ==> o in old(Objects(trees)) || fresh(o)
    {
      ghost var before := ContentsAfterAll(cmds[..n], s);
      assert cmds[..n + 1][..n] == cmds[..n];
      now := RunCommand(now, cmds[n], before);
    }
    assert cmds[..|cmds|] == cmds;
  }

  twostate lemma SameParts(m: Repo)
    requires m.Settled() || Untouched(m)
    ensures forall o :: o in Parts(m) ==> o in old(Parts(m)) || fresh(o)
  {
  }

  twostate lemma NewParts(m: Repo, new clone: Repo)
    requires NewClone(m, clone) && (m.Settled() || Untouched(m))
    ensures forall o :: o in Parts(clone) ==> o in old(Parts(m)) || fresh(o)
  {
  }

  method RunOnTree(trees: seq<Repo>, k: nat, op: Op)
    requires World(trees) && k < |trees|
    modifies Objects(trees)
    ensures World(trees) && forall i :: 0 <= i < |trees| && i != k ==> Untouched(trees[i])
    ensures trees[k].dirs.entries == DirsAfter(op, old(trees[k].dirs.entries))
    ensures trees[k].files.entries == FilesAfter(op, old(trees[k].files.entries))
    ensures forall i, o :: 0 <= i < |trees| && o in Parts(trees[i]) ==> o in old(Objects(trees)) || fresh(o)
  {
    assert Parts(trees[k]) <= Objects(trees);
    Step(trees, k, op);
    forall i, o | 0 <= i < |trees| && o in Parts(trees[i]) ensures o in old(Objects(trees)) || fresh(o) {
      SameParts(trees[i]);
      assert old(Parts(trees[i])) <= old(Objects(trees));
    }
  }

  method RunClone(trees: seq<Repo>, k: nat) returns (now: seq<Repo>)
    requires World(trees) && k < |trees|
    modifies Objects(trees)
    ensures |now| == |trees| + 1 && now[..|trees|] == trees && World(now)
    ensures forall i :: 0 <= i < |trees| ==> Untouched(trees[i])
    ensures now[|trees|].dirs.entries == trees[k].dirs.entries && now[|trees|].files.entries == trees[k].files.entries
    ensures forall i, o :: 0 <= i < |now| && o in Parts(now[i]) ==> o in old(Objects(trees)) || fresh(o)
  {
    assert Parts(trees[k]) <= Objects(trees);
    now := CloneStep(trees, k);
    NewParts(trees[k], now[|trees|]);
    forall i, o | 0 <= i < |now| && o in Parts(now[i]) ensures o in old(Objects(trees)) || fresh(o) {
      if i < |trees| {
        assert now[i] == trees[i];
        SameParts(trees[i]);
        assert old(Parts(trees[i])) <= old(Objects(trees));
      } else {
        assert old(Parts(trees[k])) <= old(Objects(trees));
      }
    }
  }

  method RunCommand(trees: seq<Repo>, cmd: Command, ghost s: seq<Contents>) returns (now: seq<Repo>)
    requires World(trees) && HoldAll(trees, s)
    modifies Objects(trees)
    ensures World(now) && HoldAll(now, ContentsAfter(cmd, s))
    ensures forall o :: o in Objects(now) ==> o in old(Objects(trees)) || fresh(o)
  {
    now := trees;
    if cmd.tree < |trees| {
      match cmd
      case OnTree(k, op) =>
        RunOnTree(trees, k, op);
      case CloneTree(k) =>
        now := RunClone(trees, k);
        assert forall i :: 0 <= i < |trees| ==> now[i] == trees[i];
    }
  }

  lemma GroupMembers<K(!new)>(of: map<string, K>, g: map<K, seq<string>>, k: K)
    requires IsGrouping(of, g)
    ensures Sorted(ListAt(g, k)) && forall s :: s in ListAt(g, k) <==> s in of && of[s] == k
  {
    forall s ensures s in ListAt(g, k) <==> s in of && of[s] == k {
      if s in of && of[s] == k {
        assert s in ListAt(g, of[s]);
      }
    }
  }
}
