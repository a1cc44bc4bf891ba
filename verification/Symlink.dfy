/** Path resolution: a worklist walk that splices link targets in front of what is left, and the
    permission checks that consume its chain of directories. */
module Symlink {
  import opened Errnos
  import opened Options
  import opened RepoTree

  const MAX_SYMLINK_HOPS := 40

  /** A user path: empty, whitespace only, or the parts between its slashes. */
  datatype Input = EmptyInput | BlankInput | Parts(parts: seq<string>)

  datatype Resolution = Failed(errno: Errno) | Resolved(key: Path, traversed: seq<Path>)

  // ----- stored keys

  /** The characters the source's language trims as white space. */
  predicate IsSpace(c: char) {
    || c == ' ' || '\t' <= c <= '\r' || c == '\U{85}' || c == '\U{A0}'
    || c == '\U{1680}' || '\U{2000}' <= c <= '\U{200A}' || c == '\U{2028}' || c == '\U{2029}'
    || c == '\U{202F}' || c == '\U{205F}' || c == '\U{3000}'
  }

  predicate Blank(s: string) {
    forall i :: 0 <= i < |s| ==> IsSpace(s[i])
  }

  /** The lookups of the stored maps take a path of one whitespace-only name for the root. The
      resolver itself does not: its own normalizer keeps such a name as it is spelled. */
  function StoredKey(p: Path): Path {
    if |p| == 1 && Blank(p[0]) then [] else p
  }

  function FindFile(t: Tree, p: Path): Option<FileMeta> {
    if StoredKey(p) in t.files then Some(t.files[StoredKey(p)]) else None
  }

  predicate HasDirectory(t: Tree, p: Path) {
    StoredKey(p) == [] || StoredKey(p) in t.dirs
  }

  function LinkAt(t: Tree, p: Path): Option<Target> {
    if FindFile(t, p).Some? then FindFile(t, p).value.link else None
  }

  predicate Exists(t: Tree, p: Path) {
    FindFile(t, p).Some? || HasDirectory(t, p)
  }

  // ----- the definition: resolve a target completely, then carry on behind it

  datatype Outcome = Error(errno: Errno) | At(base: Path, hops: nat, traversed: seq<Path>)

  /** Resolves `comps` from `base`; `more` says that something follows them. */
  function Resolve(t: Tree, base: Path, comps: seq<string>, more: bool, follow: bool, hops: nat, traversed: seq<Path>): (r: Outcome)
    ensures r.At? ==> r.hops >= hops
    decreases MAX_SYMLINK_HOPS + 1 - hops, |comps|
  {
    if comps == [] then At(base, hops, traversed)
    else
      var name, rest := comps[0], comps[1..];
      if name == "" || name == "." then Resolve(t, base, rest, more, follow, hops, traversed)
      else if name == ".." then
        if base == [] then Error(EscapesRoot) else Resolve(t, Parent(base), rest, more, follow, hops, traversed)
      else
        var current := base + [name];
        var final := rest == [] && !more;
        if LinkAt(t, current).None? || (!follow && final) then
          Resolve(t, current, rest, more, follow, hops, Descend(t, current, final, traversed))
        else if hops >= MAX_SYMLINK_HOPS then Error(ELOOP)
        else
          var target := LinkAt(t, current).value;
          match Resolve(t, if target.absolute then [] else base, target.parts, !final, follow, hops + 1, traversed)
          case Error(e) => Error(e)
          case At(there, used, chain) => Resolve(t, there, rest, more, follow, used, chain)
  }

  /** A directory, or whatever stands in its place, is recorded unless the walk ends there. */
  function Descend(t: Tree, current: Path, final: bool, traversed: seq<Path>): seq<Path> {
    if !final && Exists(t, current) then traversed + [current] else traversed
  }

  /** Resolving a concatenation is resolving one part behind the other. */
  lemma {:induction false} ResolveConcat(t: Tree, base: Path, a: seq<string>, b: seq<string>, more: bool, follow: bool, hops: nat,
                                         traversed: seq<Path>)
    ensures Resolve(t, base, a + b, more, follow, hops, traversed) ==
      match Resolve(t, base, a, more || b != [], follow, hops, traversed)
      case Error(e) => Error(e)
      case At(there, used, chain) => Resolve(t, there, b, more, follow, used, chain)
    decreases MAX_SYMLINK_HOPS + 1 - hops, |a|, 0
  {
    if a == [] {
      assert a + b == b;
    } else {
      var name, rest := a[0], a[1..];
      assert (a + b)[0] == name && (a + b)[1..] == rest + b;
      if name == "" || name == "." {
        ResolveConcat(t, base, rest, b, more, follow, hops, traversed);
      } else if name == ".." {
        if base != [] {
          ResolveConcat(t, Parent(base), rest, b, more, follow, hops, traversed);
        }
      } else {
        ResolveConcatName(t, base, name, rest, b, more, follow, hops, traversed);
      }
    }
  }

  lemma {:induction false} ResolveConcatName(t: Tree, base: Path, name: string, rest: seq<string>, b: seq<string>, more: bool,
                                             follow: bool, hops: nat, traversed: seq<Path>)
    requires name != "" && name != "." && name != ".."
    ensures Resolve(t, base, [name] + (rest + b), more, follow, hops, traversed) ==
      match Resolve(t, base, [name] + rest, more || b != [], follow, hops, traversed)
      case Error(e) => Error(e)
      case At(there, used, chain) => Resolve(t, there, b, more, follow, used, chain)
    decreases MAX_SYMLINK_HOPS + 1 - hops, |rest|, 1
  {
    var current := base + [name];
    var final := rest + b == [] && !more;
    assert ([name] + (rest + b))[1..] == rest + b && ([name] + rest)[1..] == rest;
    if LinkAt(t, current).None? || (!follow && final) {
      ResolveConcat(t, current, rest, b, more, follow, hops, Descend(t, current, final, traversed));
    } else if hops < MAX_SYMLINK_HOPS {
      var target := LinkAt(t, current).value;
      var inner := Resolve(t, if target.absolute then [] else base, target.parts, !final, follow, hops + 1, traversed);
      if inner.At? {
        ResolveConcat(t, inner.base, rest, b, more, follow, inner.hops, inner.traversed);
      }
    }
  }

  // ----- the code

  function Outward(r: Outcome): Resolution {
    match r
    case Error(e) => Failed(e)
    case At(base, _, traversed) => Resolved(base, traversed)
  }

  function ResolvePath(t: Tree, input: Input, follow: bool): Resolution {
    match input
    case EmptyInput => Resolved([], [[]])
    case BlankInput => Failed(EINVAL)
    case Parts(parts) => Outward(Resolve(t, [], parts, false, follow, 0, [[]]))
  }

  /** One loop over a queue of names: a link's parts go in front of what is left of it. */
  method ResolvePathTracked(t: Tree, input: Input, follow: bool) returns (r: Resolution)
    ensures r == ResolvePath(t, input, follow)
  {
    if input.EmptyInput? {
      return Resolved([], [[]]);
    }
    if input.BlankInput? {
      return Failed(EINVAL);
    }
    var queue, resolved, traversed, hops := input.parts, [], [[]], 0;
    ghost var goal := Resolve(t, [], input.parts, false, follow, 0, [[]]);
    while queue != []
      invariant hops <= MAX_SYMLINK_HOPS
      invariant Resolve(t, resolved, queue, false, follow, hops, traversed) == goal
      decreases MAX_SYMLINK_HOPS - hops, |queue|
    {
      var name := queue[0];
      ghost var before := queue;
      queue := queue[1..];
      if name == "" || name == "." {
        continue;
      }
      if name == ".." {
        if resolved == [] {
          return Failed(EscapesRoot);
        }
        resolved := Parent(resolved);
        continue;
      }
      var current := resolved + [name];
      var atFinal := queue == [];
      var file := FindFile(t, current);
      if file.None? || file.value.link.None? || (!follow && atFinal) {
        if !atFinal && (file.Some? || HasDirectory(t, current)) {
          traversed := traversed + [current];
        }
        resolved := current;
        continue;
      }
      if hops + 1 > MAX_SYMLINK_HOPS {
        return Failed(ELOOP);
      }
      var target := file.value.link.value;
      SpliceTarget(t, resolved, before, target, follow, hops, traversed);
      hops := hops + 1;
      if target.absolute {
        resolved := [];
      }
      queue := target.parts + queue;
    }
    r := Resolved(resolved, traversed);
  }

  /** Following a link is resolving its parts in front of what is left. */
  lemma SpliceTarget(t: Tree, base: Path, queue: seq<string>, target: Target, follow: bool, hops: nat, traversed: seq<Path>)
    requires queue != [] && queue[0] != "" && queue[0] != "." && queue[0] != ".." && hops < MAX_SYMLINK_HOPS
    requires LinkAt(t, base + [queue[0]]) == Some(target) && (follow || queue[1..] != [])
    ensures Resolve(t, base, queue, false, follow, hops, traversed) ==
      Resolve(t, if target.absolute then [] else base, target.parts + queue[1..], false, follow, hops + 1, traversed)
  {
    ResolveConcat(t, if target.absolute then [] else base, target.parts, queue[1..], false, follow, hops + 1, traversed);
  }

  // ----- what a resolution is

  predicate PlainName(name: string) {
    name != "" && name != "." && name != ".."
  }

  /** Every component of `p` has been walked into: no dots, no links, and whatever of them exists is
      in the chain. */
  predicate Walked(t: Tree, p: Path, traversed: seq<Path>) {
    && [] in traversed
    && (forall i :: 0 <= i < |p| ==> PlainName(p[i]))
    && (forall i :: 0 < i <= |p| ==> LinkAt(t, p[..i]).None?)
    && (forall i :: 0 < i <= |p| ==> Exists(t, p[..i]) ==> p[..i] in traversed)
  }

  /** The last component may still be a link in lstat mode, and need not be in the chain. */
  predicate Settled(t: Tree, p: Path, more: bool, follow: bool, traversed: seq<Path>) {
    || Walked(t, p, traversed)
    || (!more && p != [] && PlainName(Base(p)) && Walked(t, Parent(p), traversed) && (follow ==> LinkAt(t, p).None?))
  }

  lemma WalkedParent(t: Tree, p: Path, traversed: seq<Path>)
    requires Walked(t, p, traversed) && p != []
    ensures Walked(t, Parent(p), traversed)
  {
    forall i | 0 < i <= |Parent(p)| ensures Parent(p)[..i] == p[..i] {
    }
    assert forall i :: 0 < i <= |Parent(p)| ==> Parent(p)[..i] == p[..i];
  }

  lemma WalkedChild(t: Tree, p: Path, name: string, traversed: seq<Path>, chain: seq<Path>)
    requires Walked(t, p, traversed) && PlainName(name) && LinkAt(t, p + [name]).None?
    requires traversed <= chain && (Exists(t, p + [name]) ==> p + [name] in chain)
    ensures Walked(t, p + [name], chain)
  {
    var q := p + [name];
    forall i | 0 < i <= |q| ensures LinkAt(t, q[..i]).None? && (Exists(t, q[..i]) ==> q[..i] in chain) {
      if i == |q| {
        assert q[..i] == q;
      } else {
        assert q[..i] == p[..i];
      }
    }
    assert [] in chain;
  }

  /** Resolving from a walked base settles the result. */
  lemma {:induction false} ResolveSettles(t: Tree, base: Path, comps: seq<string>, more: bool, follow: bool, hops: nat, traversed: seq<Path>)
    requires Walked(t, base, traversed) && Resolve(t, base, comps, more, follow, hops, traversed).At?
    ensures var r := Resolve(t, base, comps, more, follow, hops, traversed); Settled(t, r.base, more, follow, r.traversed)
    decreases MAX_SYMLINK_HOPS + 1 - hops, |comps|
  {
    if comps != [] {
      var name, rest := comps[0], comps[1..];
      if name == "" || name == "." {
        ResolveSettles(t, base, rest, more, follow, hops, traversed);
      } else if name == ".." {
        WalkedParent(t, base, traversed);
        ResolveSettles(t, Parent(base), rest, more, follow, hops, traversed);
      } else {
        NameSettles(t, base, name, rest, more, follow, hops, traversed, comps);
      }
    }
  }

  lemma {:induction false} NameSettles(t: Tree, base: Path, name: string, rest: seq<string>, more: bool, follow: bool, hops: nat,
                                       traversed: seq<Path>, comps: seq<string>)
    requires Walked(t, base, traversed) && PlainName(name) && comps != [] && comps[0] == name && comps[1..] == rest
    requires Resolve(t, base, comps, more, follow, hops, traversed).At?
    ensures var r := Resolve(t, base, comps, more, follow, hops, traversed); Settled(t, r.base, more, follow, r.traversed)
    decreases MAX_SYMLINK_HOPS + 1 - hops, |comps|, 0
  {
    var current := base + [name];
    var final := rest == [] && !more;
    if LinkAt(t, current).None? || (!follow && final) {
      var chain := Descend(t, current, final, traversed);
      if final {
        assert Parent(current) == base && Base(current) == name;
      } else {
        WalkedChild(t, base, name, traversed, chain);
        ResolveSettles(t, current, rest, more, follow, hops, chain);
      }
    } else {
      var target := LinkAt(t, current).value;
      var start := if target.absolute then [] else base;
      var inner := Resolve(t, start, target.parts, !final, follow, hops + 1, traversed);
      ResolveSettles(t, start, target.parts, !final, follow, hops + 1, traversed);
      if !final {
        ResolveSettles(t, inner.base, rest, more, follow, inner.hops, inner.traversed);
      }
    }
  }

  // ----- properties of every resolution

  /** No dots, no link before the last component, and in stat mode none at all. */
  predicate Plain(t: Tree, p: Path, follow: bool) {
    && (forall i :: 0 <= i < |p| ==> PlainName(p[i]))
    && (forall i :: 0 < i < |p| ==> LinkAt(t, p[..i]).None?)
    && (follow && p != [] ==> LinkAt(t, p).None?)
  }

  predicate AncestorsIn(t: Tree, p: Path, chain: seq<Path>) {
    [] in chain && forall i :: 0 < i < |p| ==> Exists(t, p[..i]) ==> p[..i] in chain
  }

  lemma WalkedIsPlain(t: Tree, p: Path, chain: seq<Path>)
    requires Walked(t, p, chain)
    ensures Plain(t, p, true) && AncestorsIn(t, p, chain)
  {
    assert p[..|p|] == p;
  }

  lemma SettledIsPlain(t: Tree, p: Path, follow: bool, chain: seq<Path>)
    requires Settled(t, p, false, follow, chain)
    ensures Plain(t, p, follow) && AncestorsIn(t, p, chain)
  {
    if Walked(t, p, chain) {
      WalkedIsPlain(t, p, chain);
    } else {
      var up := Parent(p);
      assert p == up + [Base(p)];
      forall i | 0 < i < |p| ensures LinkAt(t, p[..i]).None? && (Exists(t, p[..i]) ==> p[..i] in chain) {
        assert p[..i] == up[..i];
      }
    }
  }

  /** What a resolution promises: a key without dots or links on the way, and a chain that holds
      the root and every existing directory above the key. */
  lemma ResolutionIsPhysical(t: Tree, input: Input, follow: bool)
    requires ResolvePath(t, input, follow).Resolved?
    ensures var r := ResolvePath(t, input, follow); Plain(t, r.key, follow) && AncestorsIn(t, r.key, r.traversed)
  {
    if input.Parts? {
      assert Walked(t, [], [[]]);
      ResolveSettles(t, [], input.parts, false, follow, 0, [[]]);
      var r := Resolve(t, [], input.parts, false, follow, 0, [[]]);
      SettledIsPlain(t, r.base, follow, r.traversed);
    }
  }

  predicate BlankName(p: Path) {
    |p| == 1 && Blank(p[0])
  }

  /** A key handed in again as a user path. */
  function InputOf(key: Path): Input {
    if key == [] then EmptyInput else if BlankName(key) then BlankInput else Parts(key)
  }

  ghost predicate OnTheWay(t: Tree, p: Path, d: Path) {
    exists i :: 0 < i < |p| && d == p[..i] && Exists(t, d)
  }

  /** A plain path resolves to itself, walking into its own ancestors only. */
  lemma {:induction false} PlainResolves(t: Tree, base: Path, comps: seq<string>, follow: bool, hops: nat, traversed: seq<Path>)
    requires Plain(t, base + comps, follow)
    ensures var r := Resolve(t, base, comps, false, follow, hops, traversed);
      r.At? && r.base == base + comps && forall d :: d in r.traversed ==> d in traversed || OnTheWay(t, base + comps, d)
    decreases |comps|
  {
    if comps == [] {
      assert base + comps == base;
    } else {
      var p, current := base + comps, base + [comps[0]];
      assert p[|base|] == comps[0] && p[..|base| + 1] == current;
      assert current + comps[1..] == p;
      if comps[1..] == [] {
        assert p == current;
      }
      PlainResolves(t, current, comps[1..], follow, hops, Descend(t, current, comps[1..] == [], traversed));
      if comps[1..] != [] && Exists(t, current) {
        assert OnTheWay(t, p, current);
      }
    }
  }

  /** Resolving a key again gives the key exactly when the key is not one whitespace-only name. */
  lemma ResolveKeyAgain(t: Tree, input: Input, follow: bool)
    requires ResolvePath(t, input, follow).Resolved?
    ensures var key := ResolvePath(t, input, follow).key;
      (ResolvePath(t, InputOf(key), follow).Resolved? && ResolvePath(t, InputOf(key), follow).key == key) <==> !BlankName(key)
  {
    ResolutionIsPhysical(t, input, follow);
    var key := ResolvePath(t, input, follow).key;
    if key != [] {
      assert [] + key == key;
      PlainResolves(t, [], key, follow, 0, [[]]);
    }
  }

  // ----- permissions.go: walking the chain

  /** The execute check on one directory; `walkable` are the directories the caller may pass. */
  function ExecVerdict(t: Tree, walkable: set<Path>, dir: Path): Errno {
    var key := StoredKey(dir);
    if dir == [] then (if [] in walkable then OK else EACCES)
    else if key in t.files then ENOTDIR
    else if key == [] then (if [] in walkable then OK else EACCES)
    else if key in t.dirs then (if key in walkable then OK else EACCES)
    else ENOENT
  }

  /** The first refusal on the way, if any. */
  function FirstRefusal(t: Tree, walkable: set<Path>, dirs: seq<Path>): Errno {
    if dirs == [] then OK
    else if ExecVerdict(t, walkable, dirs[0]) != OK then ExecVerdict(t, walkable, dirs[0])
    else FirstRefusal(t, walkable, dirs[1..])
  }

  lemma {:induction false} FirstRefusalOK(t: Tree, walkable: set<Path>, dirs: seq<Path>)
    ensures FirstRefusal(t, walkable, dirs) == OK <==> forall d :: d in dirs ==> ExecVerdict(t, walkable, d) == OK
  {
    if dirs != [] {
      FirstRefusalOK(t, walkable, dirs[1..]);
      assert forall d :: d in dirs <==> d == dirs[0] || d in dirs[1..];
    }
  }

  /** Each directory is checked once, in walk order. */
  method CheckWalkResolved(t: Tree, walkable: set<Path>, traversed: seq<Path>) returns (errno: Errno)
    ensures errno == FirstRefusal(t, walkable, traversed)
  {
    var checked: set<Path> := {};
    for i := 0 to |traversed|
      invariant forall d :: d in checked ==> ExecVerdict(t, walkable, d) == OK
      invariant FirstRefusal(t, walkable, traversed) == FirstRefusal(t, walkable, traversed[i..])
    {
      var dir := traversed[i];
      assert traversed[i..][0] == dir && traversed[i..][1..] == traversed[i + 1..];
      if dir !in checked {
        errno := ExecVerdict(t, walkable, dir);
        if errno != OK {
          return;
        }
        checked := checked + {dir};
      }
    }
    errno := OK;
  }

  /** Resolves, lstat-style, and checks the chain. */
  function CheckWalk(t: Tree, walkable: set<Path>, input: Input): Errno {
    match ResolvePath(t, input, false)
    case Failed(e) => e
    case Resolved(_, traversed) => FirstRefusal(t, walkable, traversed)
  }

  /** Passing the chain of a resolution is passing the walk to its key, by whatever links and
      detours the key was reached; exactly unless the key is one whitespace-only name. */
  lemma ChainCoversKey(t: Tree, walkable: set<Path>, input: Input, follow: bool)
    requires ResolvePath(t, input, follow).Resolved?
    requires FirstRefusal(t, walkable, ResolvePath(t, input, follow).traversed) == OK
    ensures CheckWalk(t, walkable, InputOf(ResolvePath(t, input, follow).key)) == OK <==> !BlankName(ResolvePath(t, input, follow).key)
  {
    var r := ResolvePath(t, input, follow);
    ResolutionIsPhysical(t, input, follow);
    FirstRefusalOK(t, walkable, r.traversed);
    if r.key == [] {
      FirstRefusalOK(t, walkable, [[]]);
    } else if !BlankName(r.key) {
      assert [] + r.key == r.key;
      PlainResolves(t, [], r.key, false, 0, [[]]);
      var chain := Resolve(t, [], r.key, false, false, 0, [[]]).traversed;
      forall d | d in chain ensures ExecVerdict(t, walkable, d) == OK {
        if d != [] {
          assert OnTheWay(t, [] + r.key, d);
        }
      }
      FirstRefusalOK(t, walkable, chain);
    }
  }

  /** The other way round fails: behind an absolute link the key's own walk never meets the
      directory that holds the link. A closed directory d with a link d/l to /x. */
  lemma KeyDoesNotCoverChain(root: DirMeta, dir: DirMeta, file: FileMeta)
    requires file.link == None
    ensures var link := file.(link := Some(Target(true, ["x"])));
      var t := Tree(root, map[["d"] := dir], map[["x"] := file, ["d", "l"] := link], map[], map[]);
      var r := ResolvePath(t, Parts(["d", "l"]), true);
      && r == Resolved(["x"], [[], ["d"]])
      && FirstRefusal(t, {[]}, r.traversed) == EACCES && CheckWalk(t, {[]}, InputOf(["x"])) == OK
  {
    var link := file.(link := Some(Target(true, ["x"])));
    var t := Tree(root, map[["d"] := dir], map[["x"] := file, ["d", "l"] := link], map[], map[]);
    assert [] + ["d"] == ["d"] && ["d"] + ["l"] == ["d", "l"] && [] + ["x"] == ["x"];
    assert ["d", "l"][1..] == ["l"] && ["l"][1..] == [] && ["x"][1..] == [];
    assert !Blank("d") && !Blank("x") by {
      assert !IsSpace("d"[0]) && !IsSpace("x"[0]);
    }
    assert LinkAt(t, ["d"]).None? && LinkAt(t, ["x"]).None? && LinkAt(t, ["d", "l"]) == Some(Target(true, ["x"]));
    assert Resolve(t, [], ["x"], false, true, 1, [[], ["d"]]) == At(["x"], 1, [[], ["d"]]);
    assert Resolve(t, ["d"], ["l"], false, true, 0, [[], ["d"]]) == At(["x"], 1, [[], ["d"]]);
    assert Resolve(t, [], ["x"], false, false, 0, [[]]) == At(["x"], 0, [[]]);
    assert Resolve(t, [], ["d", "l"], false, true, 0, [[]]) == At(["x"], 1, [[], ["d"]]);
    var chain: seq<Path> := [[], ["d"]];
    assert chain[1..] == [["d"]];
    assert ExecVerdict(t, {[]}, chain[0]) == OK && ExecVerdict(t, {[]}, ["d"]) == EACCES;
    assert FirstRefusal(t, {[]}, chain) == EACCES;
    FirstRefusalOK(t, {[]}, [[]]);
    assert ResolvePath(t, Parts(["x"]), false) == Resolved(["x"], [[]]);
  }

  // ----- a name of spaces

  lemma DotsNotBlank()
    ensures !Blank(".") && !Blank("..")
  {
    assert !IsSpace("."[0]) && !IsSpace(".."[0]);
  }

  /** A whitespace-only name is turned away as a path of its own. Spelled behind a dot it resolves,
      through a chain anyone may pass, to a key that is turned away in its turn. */
  lemma BlankNameRefused(t: Tree, name: string, follow: bool)
    requires name != "" && Blank(name) && [] !in t.files
    ensures ResolvePath(t, Parts([".", name]), follow) == Resolved([name], [[]])
    ensures FirstRefusal(t, {[]}, ResolvePath(t, Parts([".", name]), follow).traversed) == OK
    ensures ResolvePath(t, InputOf([name]), follow) == Failed(EINVAL) && CheckWalk(t, {[]}, InputOf([name])) == EINVAL
  {
    var comps := [".", name];
    assert comps[1..] == [name] && [name][1..] == [];
    DotsNotBlank();
    assert PlainName(name);
    assert LinkAt(t, [] + [name]).None?;
    assert [] + [name] == [name];
    assert Resolve(t, [], [name], false, follow, 0, [[]]) == At([name], 0, [[]]);
    FirstRefusalOK(t, {[]}, [[]]);
  }

  /** The input "./ " in a tree with nothing in it. */
  lemma BlankNameExample(root: DirMeta)
    ensures ResolvePath(Tree(root, map[], map[], map[], map[]), Parts([".", " "]), true) == Resolved([" "], [[]])
    ensures ResolvePath(Tree(root, map[], map[], map[], map[]), InputOf([" "]), true) == Failed(EINVAL)
  {
    BlankNameRefused(Tree(root, map[], map[], map[], map[]), " ", true);
  }
}
