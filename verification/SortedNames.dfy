/** Sorted name lists, and maps of them: the shape of every derived index. */
module SortedNames {

  // ----- the byte order of strings

  predicate Less(a: string, b: string) {
    b != [] && (a == [] || a[0] < b[0] || (a[0] == b[0] && Less(a[1..], b[1..])))
  }

  /** Where two strings first differ the earlier one has the smaller character, or ends. */
  ghost predicate PartsAt(a: string, b: string, k: nat) {
    k <= |a| && k < |b| && a[..k] == b[..k] && (k == |a| || a[k] < b[k])
  }

  lemma PartsBehind(a: string, b: string, k: nat)
    requires a != [] && b != [] && a[0] == b[0]
    ensures PartsAt(a, b, k + 1) <==> PartsAt(a[1..], b[1..], k)
    ensures !PartsAt(a, b, 0)
  {
    if k < |a| && k + 1 < |b| {
      assert a[..k + 1] == [a[0]] + a[1..][..k] && b[..k + 1] == [b[0]] + b[1..][..k];
      assert a[..k + 1][1..] == a[1..][..k] && b[..k + 1][1..] == b[1..][..k];
    }
  }

  lemma PartsAlike(a: string, b: string, k: nat)
    ensures PartsAt(a, b, k) && k > 0 ==> a[0] == b[0]
  {
    if PartsAt(a, b, k) && k > 0 {
      assert a[..k][0] == b[..k][0];
    }
  }

  /** The byte order of strings. */
  lemma {:induction false} LessIff(a: string, b: string)
    ensures Less(a, b) <==> exists k: nat :: PartsAt(a, b, k)
    decreases |a|
  {
    if a == [] || b == [] || a[0] != b[0] {
      assert PartsAt(a, b, 0) <==> Less(a, b);
      forall k: nat ensures PartsAt(a, b, k) ==> k == 0 {
        PartsAlike(a, b, k);
      }
    } else {
      LessIff(a[1..], b[1..]);
      forall k: nat ensures PartsAt(a, b, k + 1) <==> PartsAt(a[1..], b[1..], k) {
        PartsBehind(a, b, k);
      }
      PartsBehind(a, b, 0);
      forall k: nat | PartsAt(a, b, k) ensures Less(a[1..], b[1..]) {
        assert PartsAt(a, b, (k - 1) + 1);
        assert PartsAt(a[1..], b[1..], k - 1);
      }
    }
  }

  lemma {:induction false} LessTransitive(a: string, b: string, c: string)
    requires Less(a, b) && Less(b, c)
    ensures Less(a, c)
    decreases |a|
  {
    if a != [] && a[0] == b[0] && b[0] == c[0] {
      LessTransitive(a[1..], b[1..], c[1..]);
    }
  }

  lemma {:induction false} LessIrreflexive(a: string)
    ensures !Less(a, a)
    decreases |a|
  {
    if a != [] {
      LessIrreflexive(a[1..]);
    }
  }

  lemma {:induction false} LessTotal(a: string, b: string)
    ensures a == b || Less(a, b) || Less(b, a)
    decreases |a|
  {
    if a != [] && b != [] && a[0] == b[0] {
      LessTotal(a[1..], b[1..]);
      assert a == [a[0]] + a[1..] && b == [b[0]] + b[1..];
    }
  }

  predicate Sorted(s: seq<string>) {
    forall i, j :: 0 <= i < j < |s| ==> Less(s[i], s[j])
  }

  // ----- sorted lists

  /** The first index whose name is not before `name`. */
  method SearchStrings(list: seq<string>, name: string) returns (i: nat)
    requires Sorted(list)
    ensures i <= |list|
    ensures forall k :: 0 <= k < i ==> Less(list[k], name)
    ensures forall k :: i <= k < |list| ==> !Less(list[k], name)
  {
    i := 0;
    var hi := |list|;
    while i < hi
      invariant 0 <= i <= hi <= |list|
      invariant forall k :: 0 <= k < i ==> Less(list[k], name)
      invariant forall k :: hi <= k < |list| ==> !Less(list[k], name)
    {
      var mid := (i + hi) / 2;
      if Less(list[mid], name) {
        forall k | 0 <= k < mid ensures Less(list[k], name) {
          LessTransitive(list[k], list[mid], name);
        }
        i := mid + 1;
      } else {
        forall k | mid <= k < |list| ensures !Less(list[k], name) {
          if k > mid && Less(list[k], name) {
            LessTransitive(list[mid], list[k], name);
          }
        }
        hi := mid;
      }
    }
  }

  /** A sorted list is determined by its members. */
  lemma {:induction false} SortedUnique(a: seq<string>, b: seq<string>)
    requires Sorted(a) && Sorted(b) && forall s :: s in a <==> s in b
    ensures a == b
    decreases |a|
  {
    if a == [] {
      HeadIn(b);
    } else {
      assert a[0] in b && b != [] && b[0] in a;
      SameFirst(a, b);
      forall s ensures s in a[1..] <==> s in b[1..] {
        RestMembers(a, s);
        RestMembers(b, s);
      }
      SortedUnique(a[1..], b[1..]);
      assert a == [a[0]] + a[1..] && b == [b[0]] + b[1..];
    }
  }

  lemma HeadIn(s: seq<string>)
    ensures s != [] ==> s[0] in s
  {
  }

  lemma SameFirst(a: seq<string>, b: seq<string>)
    requires Sorted(a) && Sorted(b) && a != [] && b != [] && a[0] in b && b[0] in a
    ensures a[0] == b[0]
  {
    if a[0] != b[0] {
      var i :| 0 <= i < |b| && b[i] == a[0];
      var j :| 0 <= j < |a| && a[j] == b[0];
      LessTransitive(a[0], a[j], b[i]);
      LessIrreflexive(a[0]);
    }
  }

  lemma RestMembers(s: seq<string>, x: string)
    requires Sorted(s) && s != []
    ensures x in s[1..] <==> x in s && x != s[0]
  {
    LessIrreflexive(s[0]);
    if x in s && x != s[0] {
      var i :| 0 <= i < |s| && s[i] == x;
      assert s[1..][i - 1] == x;
    }
  }

  /** Adds a name by one shift; a name already there stays where it is. */
  method InsertSortedString(list: seq<string>, name: string) returns (out: seq<string>)
    requires Sorted(list)
    ensures Sorted(out) && forall s :: s in out <==> s in list || s == name
  {
    var i := SearchStrings(list, name);
    assert list == list[..i] + list[i..];
    if i < |list| && list[i] == name {
      return list;
    }
    out := list[..i] + [name] + list[i..];
    InsertKeepsSorted(list, i, name);
  }

  lemma InsertKeepsSorted(list: seq<string>, i: nat, name: string)
    requires Sorted(list) && i <= |list| && (i < |list| ==> list[i] != name)
    requires forall k :: 0 <= k < i ==> Less(list[k], name)
    requires forall k :: i <= k < |list| ==> !Less(list[k], name)
    ensures Sorted(list[..i] + [name] + list[i..])
  {
    var out := list[..i] + [name] + list[i..];
    forall k | i <= k < |list| ensures Less(name, list[k]) {
      LessTotal(list[i], name);
      if k > i {
        LessTransitive(name, list[i], list[k]);
      }
    }
    forall a, b | 0 <= a < b < |out| ensures Less(out[a], out[b]) {
      assert out[a] == (if a < i then list[a] else if a == i then name else list[a - 1]);
      assert out[b] == (if b < i then list[b] else if b == i then name else list[b - 1]);
    }
  }

  /** Drops a name; a list without it is returned as it is. */
  method RemoveSortedString(list: seq<string>, name: string) returns (out: seq<string>)
    requires Sorted(list)
    ensures Sorted(out) && forall s :: s in out <==> s in list && s != name
  {
    var i := SearchStrings(list, name);
    if i >= |list| || list[i] != name {
      NotThere(list, i, name);
      return list;
    }
    out := list[..i] + list[i + 1..];
    RemoveKeepsSorted(list, i);
  }

  lemma NotThere(list: seq<string>, i: nat, name: string)
    requires Sorted(list) && i <= |list| && (i < |list| ==> list[i] != name)
    requires forall k :: 0 <= k < i ==> Less(list[k], name)
    requires forall k :: i <= k < |list| ==> !Less(list[k], name)
    ensures name !in list
  {
    LessIrreflexive(name);
    forall k | 0 <= k < |list| ensures list[k] != name {
      if k > i {
        LessTotal(list[i], name);
        LessTransitive(name, list[i], list[k]);
      }
    }
  }

  lemma RemoveKeepsSorted(list: seq<string>, i: nat)
    requires Sorted(list) && i < |list|
    ensures Sorted(list[..i] + list[i + 1..])
    ensures forall s :: s in list[..i] + list[i + 1..] <==> s in list && s != list[i]
  {
    var out := list[..i] + list[i + 1..];
    forall a, b | 0 <= a < b < |out| ensures Less(out[a], out[b]) {
      assert out[a] == list[if a < i then a else a + 1];
      assert out[b] == list[if b < i then b else b + 1];
    }
    forall s | s in out ensures s in list && s != list[i] {
      var k :| 0 <= k < |out| && out[k] == s;
      assert s == list[if k < i then k else k + 1];
      LessIrreflexive(s);
    }
    forall s | s in list && s != list[i] ensures s in out {
      var k :| 0 <= k < |list| && list[k] == s;
      assert out[if k < i then k else k - 1] == s;
    }
  }

  // ----- groups of names

  function ListAt<K(!new)>(g: map<K, seq<string>>, k: K): seq<string> {
    if k in g then g[k] else []
  }

  /** The groups hold each name under its group, sorted, and no empty group is kept. */
  ghost predicate IsGrouping<K(!new)>(of: map<string, K>, g: map<K, seq<string>>) {
    && (forall name :: name in of ==> name in ListAt(g, of[name]))
    && (forall k :: k in g ==> g[k] != [] && Sorted(g[k]))
    && (forall k, name :: name in ListAt(g, k) ==> name in of && of[name] == k)
  }

  /** A full rebuild has only one result. */
  lemma GroupingUnique<K(!new)>(of: map<string, K>, a: map<K, seq<string>>, b: map<K, seq<string>>)
    requires IsGrouping(of, a) && IsGrouping(of, b)
    ensures a == b
  {
    forall k | k in a ensures k in b && a[k] == b[k] {
      SameGroup(of, a, b, k);
    }
    forall k | k in b ensures k in a {
      SameGroup(of, b, a, k);
    }
  }

  lemma SameGroup<K(!new)>(of: map<string, K>, a: map<K, seq<string>>, b: map<K, seq<string>>, k: K)
    requires IsGrouping(of, a) && IsGrouping(of, b) && k in a
    ensures k in b && a[k] == b[k]
  {
    Grouped(of, a, b, k, a[k][0]);
    forall s ensures s in a[k] <==> s in b[k] {
      Grouped(of, a, b, k, s);
      Grouped(of, b, a, k, s);
    }
    SortedUnique(a[k], b[k]);
  }

  lemma Grouped<K(!new)>(of: map<string, K>, a: map<K, seq<string>>, b: map<K, seq<string>>, k: K, name: string)
    requires IsGrouping(of, a) && IsGrouping(of, b) && k in a
    ensures name in a[k] ==> k in b && name in b[k]
  {
    if name in a[k] {
      assert name in ListAt(a, k);
      assert name in ListAt(b, of[name]);
    }
  }

  /** Inserting a name under its group, new or already there. */
  method GroupInsert<K(==,!new)>(g: map<K, seq<string>>, k: K, name: string, ghost of: map<string, K>)
      returns (out: map<K, seq<string>>)
    requires IsGrouping(of, g) && (name in of ==> of[name] == k)
    ensures IsGrouping(of[name := k], out)
  {
    var list := InsertSortedString(ListAt(g, k), name);
    out := g[k := list];
    InsertGroups(g, k, name, of, list);
  }

  lemma InsertGroups<K(!new)>(g: map<K, seq<string>>, k: K, name: string, of: map<string, K>, list: seq<string>)
    requires IsGrouping(of, g) && (name in of ==> of[name] == k)
    requires Sorted(list) && forall s :: s in list <==> s in ListAt(g, k) || s == name
    ensures IsGrouping(of[name := k], g[k := list])
  {
    var out, now := g[k := list], of[name := k];
    assert name in list;
    forall n | n in now ensures n in ListAt(out, now[n]) {
      if n != name {
        assert n in ListAt(g, of[n]);
      }
    }
    forall j, n | n in ListAt(out, j) ensures n in now && now[n] == j {
      if n != name {
        assert n in ListAt(g, j);
      }
    }
  }

  /** The groups with one list replaced; an empty one is not kept. */
  function With<K(!new)>(g: map<K, seq<string>>, k: K, list: seq<string>): (r: map<K, seq<string>>)
    ensures ListAt(r, k) == list
    ensures forall j :: j != k ==> ListAt(r, j) == ListAt(g, j)
    ensures forall j :: j in r ==> if j == k then r[j] == list != [] else j in g && r[j] == g[j]
  {
    if list == [] then g - {k} else g[k := list]
  }

  /** Removing a name from its group; the last one takes the group along. */
  method GroupRemove<K(==,!new)>(g: map<K, seq<string>>, k: K, name: string, ghost of: map<string, K>)
      returns (out: map<K, seq<string>>)
    requires IsGrouping(of, g) && name in of && of[name] == k
    ensures IsGrouping(of - {name}, out)
  {
    var list := RemoveSortedString(ListAt(g, k), name);
    RemoveGroups(g, k, name, of, list);
    if list == [] {
      out := g - {k};
    } else {
      out := g[k := list];
    }
  }

  lemma RemoveGroups<K(!new)>(g: map<K, seq<string>>, k: K, name: string, of: map<string, K>, list: seq<string>)
    requires IsGrouping(of, g) && name in of && of[name] == k
    requires Sorted(list) && forall s :: s in list <==> s in ListAt(g, k) && s != name
    ensures IsGrouping(of - {name}, With(g, k, list))
  {
    AllStayListed(g, k, name, of, list);
    OnlyThoseListed(g, k, name, of, list);
    AllStaySorted(g, k, of, list);
  }

  lemma AllStayListed<K(!new)>(g: map<K, seq<string>>, k: K, name: string, of: map<string, K>, list: seq<string>)
    requires IsGrouping(of, g) && forall s :: s in list <==> s in ListAt(g, k) && s != name
    ensures forall n :: n in of - {name} ==> n in ListAt(With(g, k, list), of[n])
  {
    forall n | n in of - {name} ensures n in ListAt(With(g, k, list), of[n]) {
      assert n in ListAt(g, of[n]);
    }
  }

  lemma AllStaySorted<K(!new)>(g: map<K, seq<string>>, k: K, of: map<string, K>, list: seq<string>)
    requires IsGrouping(of, g) && Sorted(list)
    ensures forall j :: j in With(g, k, list) ==> With(g, k, list)[j] != [] && Sorted(With(g, k, list)[j])
  {
  }

  lemma OnlyThoseListed<K(!new)>(g: map<K, seq<string>>, k: K, name: string, of: map<string, K>, list: seq<string>)
    requires IsGrouping(of, g) && name in of && of[name] == k && forall s :: s in list <==> s in ListAt(g, k) && s != name
    ensures forall j, n :: n in ListAt(With(g, k, list), j) ==> n in of - {name} && of[n] == j
  {
    forall j, n | n in ListAt(With(g, k, list), j) ensures n in of - {name} && of[n] == j {
      assert n in ListAt(g, j);
    }
  }

  // ----- the full rebuild

  /** The groups hold each name once, in any order. */
  ghost predicate IsBag<K(!new)>(of: map<string, K>, g: map<K, seq<string>>) {
    && (forall name :: name in of ==> name in ListAt(g, of[name]))
    && (forall k :: k in g ==> g[k] != [])
    && (forall k, name :: k in g && name in g[k] ==> name in of && of[name] == k)
  }

  method SortStrings(list: seq<string>) returns (out: seq<string>)
    ensures Sorted(out) && forall s :: s in out <==> s in list
  {
    out := [];
    for i := 0 to |list|
      invariant Sorted(out) && forall s :: s in out <==> s in list[..i]
    {
      out := InsertSortedString(out, list[i]);
      assert list[..i + 1] == list[..i] + [list[i]];
    }
    assert list[..|list|] == list;
  }

  /** Appends every name to its group, in whatever order the names come, then sorts each group. */
  method GroupAll<K(==,!new)>(of: map<string, K>) returns (out: map<K, seq<string>>)
    ensures IsGrouping(of, out)
  {
    var bag := Bag(of);
    out := map[];
    var rest := bag.Keys;
    while rest != {}
      invariant rest <= bag.Keys && out.Keys == bag.Keys - rest
      invariant forall k :: k in out ==> Sorted(out[k]) && forall s :: s in out[k] <==> s in bag[k]
      decreases |rest|
    {
      var k :| k in rest;
      var sorted := SortStrings(bag[k]);
      out := out[k := sorted];
      rest := rest - {k};
    }
    SortedBag(of, bag, out);
  }

  lemma SortedBag<K(!new)>(of: map<string, K>, bag: map<K, seq<string>>, out: map<K, seq<string>>)
    requires IsBag(of, bag) && out.Keys == bag.Keys
    requires forall k :: k in out ==> Sorted(out[k]) && forall s :: s in out[k] <==> s in bag[k]
    ensures IsGrouping(of, out)
  {
    forall k | k in out ensures out[k] != [] {
      assert bag[k][0] in bag[k];
      assert bag[k][0] in out[k];
    }
    forall name | name in of ensures name in ListAt(out, of[name]) {
      assert name in ListAt(bag, of[name]);
    }
  }

  method Bag<K(==,!new)>(of: map<string, K>) returns (bag: map<K, seq<string>>)
    ensures IsBag(of, bag)
  {
    bag := map[];
    var rest := of.Keys;
    ghost var done: map<string, K> := map[];
    while rest != {}
      invariant rest <= of.Keys && done.Keys == of.Keys - rest && forall n :: n in done ==> done[n] == of[n]
      invariant IsBag(done, bag)
      decreases |rest|
    {
      var n :| n in rest;
      BagNext(done, bag, of[n], n);
      bag := bag[of[n] := ListAt(bag, of[n]) + [n]];
      done := done[n := of[n]];
      rest := rest - {n};
    }
    assert done == of;
  }

  lemma BagNext<K(!new)>(of: map<string, K>, bag: map<K, seq<string>>, k: K, name: string)
    requires IsBag(of, bag) && name !in of
    ensures IsBag(of[name := k], bag[k := ListAt(bag, k) + [name]])
  {
    var out, now := bag[k := ListAt(bag, k) + [name]], of[name := k];
    forall n | n in now ensures n in ListAt(out, now[n]) {
      if n != name {
        assert n in ListAt(bag, of[n]);
      }
    }
  }
}
