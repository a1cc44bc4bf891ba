/** The laws of path resolution as a caller meets them: what ".." and a link mean, the normal form in
    a tree without links, and what the chain of directories holds. */
module SymlinkLaws {
  import opened Errnos
  import opened Options
  import opened RepoTree
  import opened Symlink

  // ----- the mode, what follows, and the hops spent

  ghost predicate SameEnd(a: Outcome, b: Outcome) {
    match (a, b)
    case (Error(e), Error(f)) => e == f
    case (At(there, used, _), At(place, spent, _)) => there == place && used == spent
    case _ => false
  }

  /** In stat mode the chain alone depends on what follows and on what is recorded already. */
  lemma {:induction false} SameKeyFollowed(t: Tree, base: Path, comps: seq<string>, more: bool, other: bool, hops: nat,
                                           traversed: seq<Path>, chain: seq<Path>)
    ensures SameEnd(Resolve(t, base, comps, more, true, hops, traversed), Resolve(t, base, comps, other, true, hops, chain))
    decreases MAX_SYMLINK_HOPS + 1 - hops, |comps|
  {
    if comps != [] {
      var name, rest := comps[0], comps[1..];
      if name == "" || name == "." {
        SameKeyFollowed(t, base, rest, more, other, hops, traversed, chain);
      } else if name == ".." {
        if base != [] {
          SameKeyFollowed(t, Parent(base), rest, more, other, hops, traversed, chain);
        }
      } else {
        var current := base + [name];
        var last, final := rest == [] && !more, rest == [] && !other;
        if LinkAt(t, current).None? {
          SameKeyFollowed(t, current, rest, more, other, hops, Descend(t, current, last, traversed), Descend(t, current, final, chain));
        } else if hops < MAX_SYMLINK_HOPS {
          var target := LinkAt(t, current).value;
          var start := if target.absolute then [] else base;
          SameKeyFollowed(t, start, target.parts, !last, !final, hops + 1, traversed, chain);
          var a := Resolve(t, start, target.parts, !last, true, hops + 1, traversed);
          var b := Resolve(t, start, target.parts, !final, true, hops + 1, chain);
          if a.At? {
            SameKeyFollowed(t, a.base, rest, more, other, a.hops, a.traversed, b.traversed);
          }
        }
      }
    }
  }

  /** With something behind it, a path is followed to its end in either mode. */
  lemma {:induction false} MiddleFollowed(t: Tree, base: Path, comps: seq<string>, hops: nat, traversed: seq<Path>)
    ensures Resolve(t, base, comps, true, false, hops, traversed) == Resolve(t, base, comps, true, true, hops, traversed)
    decreases MAX_SYMLINK_HOPS + 1 - hops, |comps|
  {
    if comps != [] {
      var name, rest := comps[0], comps[1..];
      if name == "" || name == "." {
        MiddleFollowed(t, base, rest, hops, traversed);
      } else if name == ".." {
        if base != [] {
          MiddleFollowed(t, Parent(base), rest, hops, traversed);
        }
      } else {
        var current := base + [name];
        if LinkAt(t, current).None? {
          MiddleFollowed(t, current, rest, hops, Descend(t, current, false, traversed));
        } else if hops < MAX_SYMLINK_HOPS {
          var target := LinkAt(t, current).value;
          var start := if target.absolute then [] else base;
          MiddleFollowed(t, start, target.parts, hops + 1, traversed);
          var inner := Resolve(t, start, target.parts, true, true, hops + 1, traversed);
          if inner.At? {
            MiddleFollowed(t, inner.base, rest, inner.hops, inner.traversed);
          }
        }
      }
    }
  }

  ghost predicate FewerHops(a: Outcome, b: Outcome, saved: nat) {
    || a == Error(ELOOP)
    || (a.Error? && a == b)
    || (a.At? && b.At? && a.base == b.base && a.hops == b.hops + saved && a.traversed == b.traversed)
  }

  /** Hops spent beforehand can only turn an answer into ELOOP. */
  lemma {:induction false} HopsSpent(t: Tree, base: Path, comps: seq<string>, more: bool, follow: bool, hops: nat, saved: nat,
                                     traversed: seq<Path>)
    ensures FewerHops(Resolve(t, base, comps, more, follow, hops + saved, traversed),
              Resolve(t, base, comps, more, follow, hops, traversed), saved)
    decreases MAX_SYMLINK_HOPS + 1 - hops, |comps|
  {
    if comps != [] {
      var name, rest := comps[0], comps[1..];
      if name == "" || name == "." {
        HopsSpent(t, base, rest, more, follow, hops, saved, traversed);
      } else if name == ".." {
        if base != [] {
          HopsSpent(t, Parent(base), rest, more, follow, hops, saved, traversed);
        }
      } else {
        var current := base + [name];
        var final := rest == [] && !more;
        if LinkAt(t, current).None? || (!follow && final) {
          HopsSpent(t, current, rest, more, follow, hops, saved, Descend(t, current, final, traversed));
        } else if hops + saved < MAX_SYMLINK_HOPS {
          var target := LinkAt(t, current).value;
          var start := if target.absolute then [] else base;
          HopsSpent(t, start, target.parts, !final, follow, hops + 1, saved, traversed);
          var inner := Resolve(t, start, target.parts, !final, follow, hops + 1, traversed);
          if Resolve(t, start, target.parts, !final, follow, hops + 1 + saved, traversed).At? {
            HopsSpent(t, inner.base, rest, more, follow, inner.hops, saved, inner.traversed);
          }
        }
      }
    }
  }

  // ----- ".." and "."

  /** A path with something behind it goes on from where the path itself leads in stat mode. */
  lemma Behind(t: Tree, p: seq<string>, q: seq<string>, follow: bool)
    requires q != []
    ensures var r := Resolve(t, [], p, true, true, 0, [[]]);
      && SameEnd(Resolve(t, [], p, false, true, 0, [[]]), r)
      && Resolve(t, [], p + q, false, follow, 0, [[]]) ==
        if r.At? then Resolve(t, r.base, q, false, follow, r.hops, r.traversed) else r
  {
    ResolveConcat(t, [], p, q, false, follow, 0, [[]]);
    if !follow {
      MiddleFollowed(t, [], p, 0, [[]]);
    }
    SameKeyFollowed(t, [], p, false, true, 0, [[]], [[]]);
  }

  /** A dot behind a path changes nothing about its key, and the key, if it exists, joins the chain. */
  lemma DotBehind(t: Tree, p: seq<string>, follow: bool)
    ensures var here, dotted := ResolvePath(t, Parts(p), true), ResolvePath(t, Parts(p + ["."]), follow);
      && (here.Failed? ==> dotted == here)
      && (here.Resolved? ==> dotted.Resolved? && dotted.key == here.key && (Exists(t, here.key) ==> here.key in dotted.traversed))
  {
    Behind(t, p, ["."], follow);
    var r := Resolve(t, [], p, true, true, 0, [[]]);
    assert ["."][1..] == [];
    if r.At? {
      assert Walked(t, [], [[]]);
      ResolveSettles(t, [], p, true, true, 0, [[]]);
      assert r.base[..|r.base|] == r.base;
    }
  }

  /** ".." behind a path is the physical parent: the key of the path without its last component. At
      the root it escapes. */
  lemma DotDotIsParent(t: Tree, p: seq<string>, follow: bool)
    ensures var here, up := ResolvePath(t, Parts(p), true), ResolvePath(t, Parts(p + [".."]), follow);
      var dotted := ResolvePath(t, Parts(p + ["."]), follow);
      && (here.Failed? ==> up == here)
      && (here.Resolved? && here.key == [] ==> up == Failed(EscapesRoot))
      && (here.Resolved? && here.key != [] ==>
        dotted.Resolved? && up == Resolved(here.key[..|here.key| - 1], dotted.traversed))
  {
    Behind(t, p, [".."], follow);
    DotBehind(t, p, follow);
    Behind(t, p, ["."], follow);
    assert [".."][1..] == [] && ["."][1..] == [];
  }

  // ----- names and links

  /** A name that is no link is appended to the key. In lstat mode a link is no different there. */
  lemma NameBehind(t: Tree, p: seq<string>, name: string, follow: bool)
    requires name != "" && name != "." && name != ".." && ResolvePath(t, Parts(p), true).Resolved?
    requires var key := ResolvePath(t, Parts(p), true).key + [name];
      !follow || !(StoredKey(key) in t.files && t.files[StoredKey(key)].link.Some?)
    ensures var dir, dotted := ResolvePath(t, Parts(p), true).key, ResolvePath(t, Parts(p + ["."]), follow);
      dotted.Resolved? && ResolvePath(t, Parts(p + [name]), follow) == Resolved(dir + [name], dotted.traversed)
  {
    Behind(t, p, [name], follow);
    Behind(t, p, ["."], follow);
    assert [name][1..] == [] && ["."][1..] == [];
  }

  ghost predicate SameAnswer(a: Resolution, b: Resolution) {
    if a.Failed? then a == b else b.Resolved? && a.key == b.key
  }

  /** A plain path is its own key, and spends no hops. */
  lemma {:induction false} PlainStays(t: Tree, base: Path, comps: seq<string>, hops: nat, traversed: seq<Path>)
    requires Plain(t, base + comps, true)
    ensures var r := Resolve(t, base, comps, true, true, hops, traversed); r.At? && r.base == base + comps && r.hops == hops
    decreases |comps|
  {
    if comps == [] {
      assert base + comps == base;
    } else {
      var p, current := base + comps, base + [comps[0]];
      assert p[|base|] == comps[0] && p[..|base| + 1] == current && p[..|p|] == p;
      assert current + comps[1..] == p;
      PlainStays(t, current, comps[1..], hops, Descend(t, current, false, traversed));
    }
  }

  /** A link stands for its target, taken from the directory that holds the link, or from the root if
      it is absolute; unless too many links have been followed. */
  lemma LinkBehind(t: Tree, p: seq<string>, name: string, target: Target)
    requires name != "" && name != "." && name != ".." && ResolvePath(t, Parts(p), true).Resolved?
    requires var key := StoredKey(ResolvePath(t, Parts(p), true).key + [name]); key in t.files && t.files[key].link == Some(target)
    ensures var dir, r := ResolvePath(t, Parts(p), true).key, ResolvePath(t, Parts(p + [name]), true);
      || r == Failed(ELOOP)
      || SameAnswer(r, ResolvePath(t, Parts(if target.absolute then target.parts else dir + target.parts), true))
  {
    Behind(t, p, [name], true);
    assert [name][1..] == [];
    var r := Resolve(t, [], p, true, true, 0, [[]]);
    if r.hops < MAX_SYMLINK_HOPS {
      var start := if target.absolute then [] else r.base;
      assert Resolve(t, r.base, [name], false, true, r.hops, r.traversed) == Resolve(t, start, target.parts, false, true, r.hops + 1, r.traversed);
      HopsSpent(t, start, target.parts, false, true, 0, r.hops + 1, r.traversed);
      FromKey(t, p, start, target.parts, r.traversed);
      assert [] + target.parts == target.parts;
    }
  }

  /** Resolving from a key is resolving the key with the rest behind it. */
  lemma FromKey(t: Tree, p: seq<string>, start: Path, parts: seq<string>, traversed: seq<Path>)
    requires ResolvePath(t, Parts(p), true).Resolved? && (start == [] || start == ResolvePath(t, Parts(p), true).key)
    ensures SameEnd(Resolve(t, start, parts, false, true, 0, traversed), Resolve(t, [], start + parts, false, true, 0, [[]]))
  {
    ResolutionIsPhysical(t, Parts(p), true);
    assert [] + start == start;
    PlainStays(t, [], start, 0, [[]]);
    ResolveConcat(t, [], start, parts, false, true, 0, [[]]);
    SameKeyFollowed(t, [], start, parts != [], true, 0, [[]], [[]]);
    var r := Resolve(t, [], start, parts != [], true, 0, [[]]);
    SameKeyFollowed(t, start, parts, false, false, 0, traversed, r.traversed);
  }

  /** A row of links in the root, each to the next name. */
  predicate LinkRow(t: Tree, names: seq<string>) {
    && names != [] && (forall i :: 0 <= i < |names| ==> PlainName(names[i]) && !Blank(names[i]))
    && (forall i :: 0 <= i < |names| - 1 ==> [names[i]] in t.files && t.files[[names[i]]].link == Some(Target(false, [names[i + 1]])))
    && ([names[|names| - 1]] in t.files ==> t.files[[names[|names| - 1]]].link.None?)
  }

  lemma {:induction false} RowFrom(t: Tree, names: seq<string>, i: nat)
    requires LinkRow(t, names) && i < |names| && i <= 40
    ensures Resolve(t, [], [names[i]], false, true, i, [[]]) ==
      if |names| <= 41 then At([names[|names| - 1]], |names| - 1, [[]]) else Error(ELOOP)
    decreases |names| - i
  {
    var comps := [names[i]];
    assert comps[0] == names[i] && comps[1..] == [] && [] + [names[i]] == [names[i]];
    if i < |names| - 1 {
      if i < 40 {
        RowFrom(t, names, i + 1);
      }
      assert LinkAt(t, [names[i]]) == Some(Target(false, [names[i + 1]]));
    } else {
      assert LinkAt(t, [names[i]]).None?;
    }
  }

  /** Forty links in a row are followed, and no more. */
  lemma FortyLinks(t: Tree, names: seq<string>)
    requires LinkRow(t, names)
    ensures ResolvePath(t, Parts([names[0]]), true) ==
      if |names| - 1 <= 40 then Resolved([names[|names| - 1]], [[]]) else Failed(ELOOP)
  {
    RowFrom(t, names, 0);
  }

  // ----- a tree without links

  /** The names of a path with each ".." taking away the name before it. */
  function Stacked(base: Path, comps: seq<string>): Option<Path>
    decreases |comps|
  {
    if comps == [] then Some(base)
    else
      var name := comps[|comps| - 1];
      match Stacked(base, comps[..|comps| - 1])
      case None => None
      case Some(key) =>
        if name == "" || name == "." then Some(key)
        else if name != ".." then Some(key + [name])
        else if key == [] then None
        else Some(key[..|key| - 1])
  }

  lemma {:induction false} StackedFirst(base: Path, comps: seq<string>)
    requires comps != []
    ensures Stacked(base, comps) ==
      match Stacked(base, comps[..1])
      case None => None
      case Some(key) => Stacked(key, comps[1..])
    decreases |comps|
  {
    var n := |comps| - 1;
    if n == 0 {
      assert comps[..1] == comps;
    } else {
      StackedFirst(base, comps[..n]);
      assert comps[..n][..1] == comps[..1] && comps[1..][..n - 1] == comps[..n][1..];
    }
  }

  lemma {:induction false} StackedOne(base: Path, name: string)
    ensures Stacked(base, [name]) ==
      if name == "" || name == "." then Some(base)
      else if name != ".." then Some(base + [name])
      else if base == [] then None else Some(base[..|base| - 1])
  {
    assert [name][..0] == [];
  }

  lemma {:induction false} LinkFreeResolve(t: Tree, base: Path, comps: seq<string>, follow: bool, hops: nat, traversed: seq<Path>)
    requires forall p :: p in t.files ==> t.files[p].link.None?
    ensures var r := Resolve(t, base, comps, false, follow, hops, traversed);
      match Stacked(base, comps)
      case None => r == Error(EscapesRoot)
      case Some(key) => r.At? && r.base == key
    decreases |comps|
  {
    if comps != [] {
      var name, rest := comps[0], comps[1..];
      StackedFirst(base, comps);
      StackedOne(base, name);
      assert comps[..1] == [name];
      if name == "" || name == "." {
        LinkFreeResolve(t, base, rest, follow, hops, traversed);
      } else if name == ".." {
        if base != [] {
          LinkFreeResolve(t, Parent(base), rest, follow, hops, traversed);
        }
      } else {
        LinkFreeResolve(t, base + [name], rest, follow, hops, Descend(t, base + [name], rest == [], traversed));
      }
    }
  }

  /** Without links a path resolves to its names with each ".." taking one away, and fails exactly
      where there is none left to take away. */
  lemma LinkFreeIsStacked(t: Tree, p: seq<string>, follow: bool)
    requires forall q :: q in t.files ==> t.files[q].link.None?
    ensures var r := ResolvePath(t, Parts(p), follow);
      match Stacked([], p)
      case None => r == Failed(EscapesRoot)
      case Some(key) => r.Resolved? && r.key == key
  {
    LinkFreeResolve(t, [], p, follow, 0, [[]]);
  }

  // ----- the chain

  /** The chain grows in walk order, and holds nothing but the root and what exists and is no link. */
  lemma {:induction false} ChainGrows(t: Tree, base: Path, comps: seq<string>, more: bool, follow: bool, hops: nat, traversed: seq<Path>)
    requires Resolve(t, base, comps, more, follow, hops, traversed).At?
    ensures var chain := Resolve(t, base, comps, more, follow, hops, traversed).traversed;
      traversed <= chain && forall d :: d in chain ==> d in traversed || (Exists(t, d) && LinkAt(t, d).None?)
    decreases MAX_SYMLINK_HOPS + 1 - hops, |comps|
  {
    if comps != [] {
      var name, rest := comps[0], comps[1..];
      if name == "" || name == "." {
        ChainGrows(t, base, rest, more, follow, hops, traversed);
      } else if name == ".." {
        ChainGrows(t, Parent(base), rest, more, follow, hops, traversed);
      } else {
        var current := base + [name];
        var final := rest == [] && !more;
        if LinkAt(t, current).None? || (!follow && final) {
          ChainGrows(t, current, rest, more, follow, hops, Descend(t, current, final, traversed));
        } else {
          var target := LinkAt(t, current).value;
          var start := if target.absolute then [] else base;
          var inner := Resolve(t, start, target.parts, !final, follow, hops + 1, traversed);
          ChainGrows(t, start, target.parts, !final, follow, hops + 1, traversed);
          ChainGrows(t, inner.base, rest, more, follow, inner.hops, inner.traversed);
        }
      }
    }
  }

  /** The chain of a path begins with that of every path it starts with, links and detours included,
      and so holds the directory each of them leads to, if it exists. */
  lemma ChainHoldsTheWay(t: Tree, p: seq<string>, q: seq<string>, follow: bool)
    requires q != [] && ResolvePath(t, Parts(p + q), follow).Resolved?
    ensures var dir, chain := ResolvePath(t, Parts(p), true), ResolvePath(t, Parts(p + q), follow).traversed;
      && dir.Resolved? && ResolvePath(t, Parts(p + ["."]), follow).Resolved?
      && ResolvePath(t, Parts(p + ["."]), follow).traversed <= chain
      && (StoredKey(dir.key) in t.files.Keys + t.dirs.Keys ==> dir.key in chain)
      && (forall d :: d in chain ==> d == [] || (Exists(t, d) && LinkAt(t, d).None?))
  {
    Behind(t, p, q, follow);
    Behind(t, p, ["."], follow);
    DotBehind(t, p, follow);
    assert ["."][1..] == [];
    var r := Resolve(t, [], p, true, true, 0, [[]]);
    ChainGrows(t, r.base, q, false, follow, r.hops, r.traversed);
    ChainGrows(t, [], p, true, true, 0, [[]]);
  }

  /** Whether a directory of the chain may be passed, by what is stored and what the caller may pass. */
  lemma PassesIff(t: Tree, walkable: set<Path>, dirs: seq<Path>)
    ensures FirstRefusal(t, walkable, dirs) == OK <==>
      forall d :: d in dirs ==>
        var key := StoredKey(d);
        && key in walkable && (d != [] ==> key !in t.files) && (key != [] ==> key in t.dirs)
  {
    FirstRefusalOK(t, walkable, dirs);
  }

  /** The answer is that of the first directory that may not be passed. */
  lemma FirstRefused(t: Tree, walkable: set<Path>, dirs: seq<Path>, i: nat)
    requires i < |dirs| && FirstRefusal(t, walkable, dirs[..i]) == OK && FirstRefusal(t, walkable, dirs[i..i + 1]) != OK
    ensures var e, key := FirstRefusal(t, walkable, dirs), StoredKey(dirs[i]);
      if dirs[i] != [] && key in t.files then e == ENOTDIR
      else if key != [] && key !in t.dirs then e == ENOENT
      else e == EACCES && key !in walkable
    decreases i
  {
    if i > 0 {
      assert dirs[..i][0] == dirs[0] && dirs[..i][1..] == dirs[1..][..i - 1] && dirs[i..i + 1] == dirs[1..][i - 1..i];
      FirstRefused(t, walkable, dirs[1..], i - 1);
    } else {
      assert dirs[0..1] == [dirs[0]];
      assert FirstRefusal(t, walkable, [dirs[0]]) != OK;
    }
  }
}
