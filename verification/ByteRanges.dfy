/** Half-open byte spans, and the three functions of the repository that keep a
    list of them merged. A merged list is a normal form: it is determined by the
    set of offsets it covers, so the three functions can be compared exactly. */
module ByteRanges {

  datatype ByteRange = ByteRange(start: int, end: int)

  predicate InRange(r: ByteRange, x: int) {
    r.start <= x < r.end
  }

  predicate Covers(rs: seq<ByteRange>, x: int) {
    exists k :: 0 <= k < |rs| && InRange(rs[k], x)
  }

  /** Sorted, and any two spans leave a gap between them (touching spans are merged). */
  predicate Separated(rs: seq<ByteRange>) {
    forall i, j :: 0 <= i < j < |rs| ==> rs[i].end < rs[j].start
  }

  predicate NonEmpty(rs: seq<ByteRange>) {
    forall i :: 0 <= i < |rs| ==> rs[i].start < rs[i].end
  }

  predicate Within(rs: seq<ByteRange>, lo: int, hi: int) {
    forall i :: 0 <= i < |rs| ==> lo <= rs[i].start && rs[i].end <= hi
  }

  /** The normal form of a set of offsets. */
  predicate Canonical(rs: seq<ByteRange>) {
    NonEmpty(rs) && Separated(rs)
  }

  ghost predicate SameOffsets(a: seq<ByteRange>, b: seq<ByteRange>) {
    forall x :: Covers(a, x) <==> Covers(b, x)
  }

  // ----- one cover, one list

  /** Two normal forms with the same offsets begin with the same span. */
  lemma SameHead(a: seq<ByteRange>, b: seq<ByteRange>)
    requires Canonical(a) && Canonical(b) && SameOffsets(a, b) && a != [] && b != []
    ensures a[0] == b[0]
  {
    HeadBound(a, b);
    HeadBound(b, a);
    EndBound(a, b);
    EndBound(b, a);
  }

  lemma HeadBound(a: seq<ByteRange>, b: seq<ByteRange>)
    requires Canonical(a) && Canonical(b) && SameOffsets(a, b) && a != [] && b != []
    ensures b[0].start <= a[0].start
  {
    assert InRange(a[0], a[0].start);
    assert Covers(b, a[0].start);
  }

  lemma EndBound(a: seq<ByteRange>, b: seq<ByteRange>)
    requires Canonical(a) && Canonical(b) && SameOffsets(a, b) && a != [] && b != []
    requires a[0].start == b[0].start
    ensures a[0].end <= b[0].end
  {
    if b[0].end < a[0].end {
      assert InRange(a[0], b[0].end);
      GapAfterHead(b);
      assert false;
    }
  }

  lemma GapAfterHead(b: seq<ByteRange>)
    requires Canonical(b) && b != []
    ensures !Covers(b, b[0].end)
  {
  }

  lemma TailOffsets(a: seq<ByteRange>, x: int)
    requires Canonical(a) && a != []
    ensures Covers(a[1..], x) <==> Covers(a, x) && !InRange(a[0], x)
  {
    if Covers(a[1..], x) {
      var k :| 0 <= k < |a[1..]| && InRange(a[1..][k], x);
      assert InRange(a[k + 1], x);
    }
    if Covers(a, x) && !InRange(a[0], x) {
      var k :| 0 <= k < |a| && InRange(a[k], x);
      assert a[1..][k - 1] == a[k];
    }
  }

  /** A merged list is determined by the set of offsets it covers. */
  lemma {:induction false} CanonicalFormUnique(a: seq<ByteRange>, b: seq<ByteRange>)
    requires Canonical(a) && Canonical(b) && SameOffsets(a, b)
    ensures a == b
  {
    if a == [] && b == [] {
    } else if a == [] {
      assert InRange(b[0], b[0].start) && Covers(b, b[0].start);
      assert false;
    } else if b == [] {
      assert InRange(a[0], a[0].start) && Covers(a, a[0].start);
      assert false;
    } else {
      SameHead(a, b);
      forall x ensures Covers(a[1..], x) <==> Covers(b[1..], x) {
        TailOffsets(a, x);
        TailOffsets(b, x);
      }
      CanonicalFormUnique(a[1..], b[1..]);
      assert a == [a[0]] + a[1..] && b == [b[0]] + b[1..];
    }
  }

  lemma EmptyCover(rs: seq<ByteRange>)
    requires Canonical(rs) && forall x :: !Covers(rs, x)
    ensures rs == []
  {
    HeadCovered(rs);
  }

  lemma HeadCovered(rs: seq<ByteRange>)
    requires NonEmpty(rs)
    ensures rs != [] ==> Covers(rs, rs[0].start)
  {
    if rs != [] {
      assert InRange(rs[0], rs[0].start);
    }
  }

  // ----- the specification shared by the three functions

  /** `out` is the normal form of the offsets of `rs` together with `[start, end)`. */
  ghost predicate IsUnion(out: seq<ByteRange>, rs: seq<ByteRange>, start: int, end: int) {
    && Canonical(out)
    && forall x :: Covers(out, x) <==> Covers(rs, x) || start <= x < end
  }

  lemma UnionUnique(a: seq<ByteRange>, b: seq<ByteRange>, rs: seq<ByteRange>, start: int, end: int)
    requires IsUnion(a, rs, start, end) && IsUnion(b, rs, start, end)
    ensures a == b
  {
    CanonicalFormUnique(a, b);
  }

  /** `hull` spans `[start, end)` and the touching run `rs[i..j]`; what is before does not touch. */
  ghost predicate Absorbing(rs: seq<ByteRange>, i: nat, j: nat, start: int, end: int, hull: ByteRange) {
    && i <= j <= |rs|
    && (forall k :: 0 <= k < i ==> rs[k].end < start)
    && (i < j ==> start <= rs[i].end && rs[j - 1].start <= end)
    && hull.start == (if i < j && rs[i].start < start then rs[i].start else start)
    && hull.end == (if i < j && rs[j - 1].end > end then rs[j - 1].end else end)
  }

  /** ... and what is after does not touch either. */
  ghost predicate HullOf(rs: seq<ByteRange>, i: nat, j: nat, start: int, end: int, hull: ByteRange) {
    && Absorbing(rs, i, j, start, end, hull)
    && (forall k :: j <= k < |rs| ==> end < rs[k].start)
  }

  /** Replacing a touching run by its hull gives the union. */
  lemma HullIsUnion(rs: seq<ByteRange>, i: nat, j: nat, start: int, end: int, hull: ByteRange)
    requires Canonical(rs) && start < end && HullOf(rs, i, j, start, end, hull)
    ensures IsUnion(rs[..i] + [hull] + rs[j..], rs, start, end)
  {
    HullCanonical(rs, i, j, start, end, hull);
    forall x ensures Covers(rs[..i] + [hull] + rs[j..], x) <==> Covers(rs, x) || start <= x < end {
      CoversConcat(rs[..i] + [hull], rs[j..], x);
      CoversConcat(rs[..i], [hull], x);
      CoversSingle(hull, x);
      assert rs == rs[..i] + (rs[i..j] + rs[j..]);
      CoversConcat(rs[..i], rs[i..j] + rs[j..], x);
      CoversConcat(rs[i..j], rs[j..], x);
      RunCovers(rs, i, j, start, end, hull, x);
    }
  }

  lemma HullCanonical(rs: seq<ByteRange>, i: nat, j: nat, start: int, end: int, hull: ByteRange)
    requires Canonical(rs) && start < end && HullOf(rs, i, j, start, end, hull)
    ensures Canonical(rs[..i] + [hull] + rs[j..])
  {
    if i < j {
      assert rs[i].start < rs[i].end && rs[j - 1].start < rs[j - 1].end;
      assert forall k :: 0 <= k < i ==> rs[k].end < rs[i].start;
      assert forall k :: j <= k < |rs| ==> rs[j - 1].end < rs[k].start;
    }
    AroundCanonical(rs[..i], hull, rs[j..]);
  }

  lemma AroundCanonical(left: seq<ByteRange>, mid: ByteRange, right: seq<ByteRange>)
    requires Canonical(left) && Canonical(right) && mid.start < mid.end
    requires forall k :: 0 <= k < |left| ==> left[k].end < mid.start
    requires forall k :: 0 <= k < |right| ==> mid.end < right[k].start
    ensures Canonical(left + [mid] + right)
  {
  }

  lemma RunCovers(rs: seq<ByteRange>, i: nat, j: nat, start: int, end: int, hull: ByteRange, x: int)
    requires Canonical(rs) && start < end && HullOf(rs, i, j, start, end, hull)
    ensures InRange(hull, x) <==> Covers(rs[i..j], x) || start <= x < end
  {
    var run := rs[i..j];
    if InRange(hull, x) && !(start <= x < end) {
      if x < start {
        assert InRange(run[0], x);
      } else {
        assert InRange(run[j - i - 1], x);
      }
    }
    if Covers(run, x) {
      var k :| 0 <= k < |run| && InRange(run[k], x);
      assert run[k] == rs[i + k];
      if k > 0 {
        assert rs[i].end < rs[i + k].start;
      }
      if k < |run| - 1 {
        assert rs[i + k].end < rs[j - 1].start;
      }
    }
  }

  // ----- internal/storage/byterange.go

  /** A span that lies before the hull can only be met before anything was absorbed. */
  lemma SkipBefore(rs: seq<ByteRange>, i: nat, j: nat, start: int, end: int, hull: ByteRange)
    requires Canonical(rs) && start < end && Absorbing(rs, i, j, start, end, hull)
    requires j < |rs| && rs[j].end < hull.start
    ensures i == j && Absorbing(rs, j + 1, j + 1, start, end, hull)
  {
  }

  lemma AbsorbNext(rs: seq<ByteRange>, i: nat, j: nat, start: int, end: int, hull: ByteRange, wider: ByteRange)
    requires Canonical(rs) && start < end && Absorbing(rs, i, j, start, end, hull)
    requires j < |rs| && hull.start <= rs[j].end && rs[j].start <= hull.end
    requires wider.start == if rs[j].start < hull.start then rs[j].start else hull.start
    requires wider.end == if rs[j].end > hull.end then rs[j].end else hull.end
    ensures Absorbing(rs, i, j + 1, start, end, wider)
  {
    assert rs[j].start < rs[j].end;
    if i < j {
      assert rs[j - 1].end < rs[j].start;
      assert rs[i].end < rs[j].start && rs[i].start < rs[i].end;
    }
  }

  lemma PastHull(rs: seq<ByteRange>, j: nat, n: nat, hull: ByteRange)
    requires Canonical(rs) && j <= n < |rs| && hull.end < rs[j].start
    ensures hull.end < rs[n].start < rs[n].end
  {
    if j < n {
      assert rs[j].start < rs[j].end < rs[n].start;
    }
  }

  lemma RestIsPast(rs: seq<ByteRange>, i: nat, j: nat, start: int, end: int, hull: ByteRange)
    requires Canonical(rs) && start < end && Absorbing(rs, i, j, start, end, hull)
    requires j < |rs| ==> hull.end < rs[j].start
    ensures IsUnion(rs[..i] + [hull] + rs[j..], rs, start, end)
  {
    forall k | j <= k < |rs| ensures end < rs[k].start {
      PastHull(rs, j, k, hull);
    }
    HullIsUnion(rs, i, j, start, end, hull);
  }

  /** The state of the insert-and-absorb loop after `n` spans: `existing[i..j]` was absorbed
      into `cur`, and once a span past it was met, `cur` is in its place. */
  ghost predicate Sweep(existing: seq<ByteRange>, next: ByteRange, n: nat, i: nat, j: nat,
                        inserted: bool, cur: ByteRange, merged: seq<ByteRange>) {
    && i <= j <= n <= |existing| && cur.start < cur.end
    && Absorbing(existing, i, j, next.start, next.end, cur)
    && (!inserted ==> j == n && merged == existing[..i])
    && (inserted ==> j < n && cur.end < existing[j].start && merged == existing[..i] + [cur] + existing[j..n])
  }

  lemma SweepSkip(existing: seq<ByteRange>, next: ByteRange, n: nat, i: nat, j: nat,
                  inserted: bool, cur: ByteRange, merged: seq<ByteRange>)
    requires Canonical(existing) && next.start < next.end && n < |existing|
    requires Sweep(existing, next, n, i, j, inserted, cur, merged) && existing[n].end < cur.start
    ensures !inserted && Sweep(existing, next, n + 1, i + 1, j + 1, false, cur, merged + [existing[n]])
  {
    if inserted {
      PastHull(existing, j, n, cur);
    } else {
      SkipBefore(existing, i, j, next.start, next.end, cur);
    }
  }

  lemma SweepPast(existing: seq<ByteRange>, next: ByteRange, n: nat, i: nat, j: nat,
                  inserted: bool, cur: ByteRange, merged: seq<ByteRange>)
    requires n < |existing|
    requires Sweep(existing, next, n, i, j, inserted, cur, merged) && cur.end < existing[n].start
    ensures Sweep(existing, next, n + 1, i, j, true, cur,
      (if inserted then merged else merged + [cur]) + [existing[n]])
  {
    assert existing[j..n + 1] == existing[j..n] + [existing[n]];
  }

  lemma SweepAbsorb(existing: seq<ByteRange>, next: ByteRange, n: nat, i: nat, j: nat,
                    inserted: bool, cur: ByteRange, merged: seq<ByteRange>, wider: ByteRange)
    requires Canonical(existing) && next.start < next.end && n < |existing|
    requires Sweep(existing, next, n, i, j, inserted, cur, merged)
    requires cur.start <= existing[n].end && existing[n].start <= cur.end
    requires wider.start == if existing[n].start < cur.start then existing[n].start else cur.start
    requires wider.end == if existing[n].end > cur.end then existing[n].end else cur.end
    ensures !inserted && Sweep(existing, next, n + 1, i, j + 1, false, wider, merged)
  {
    if inserted {
      PastHull(existing, j, n, cur);
    } else {
      AbsorbNext(existing, i, j, next.start, next.end, cur, wider);
    }
  }

  lemma SweepDone(existing: seq<ByteRange>, next: ByteRange, i: nat, j: nat,
                  inserted: bool, cur: ByteRange, merged: seq<ByteRange>)
    requires Canonical(existing) && next.start < next.end
    requires Sweep(existing, next, |existing|, i, j, inserted, cur, merged)
    ensures IsUnion(if inserted then merged else merged + [cur], existing, next.start, next.end)
  {
    assert (if inserted then merged else merged + [cur]) == existing[..i] + [cur] + existing[j..];
    RestIsPast(existing, i, j, next.start, next.end, cur);
  }

  /** The storage layer's insert-and-absorb merge. Its arguments are values. */
  method InsertAbsorb(existing: seq<ByteRange>, next: ByteRange) returns (merged: seq<ByteRange>)
    requires Canonical(existing)
    ensures IsUnion(merged, existing, next.start, next.end)
    ensures next.end <= next.start ==> merged == existing
  {
    var cur := next;
    if cur.end <= cur.start {
      return existing;
    }
    merged := [];
    var inserted := false;
    ghost var i, j := 0, 0;
    for n := 0 to |existing|
      invariant Sweep(existing, next, n, i, j, inserted, cur, merged)
    {
      var current := existing[n];
      if current.end < cur.start {
        SweepSkip(existing, next, n, i, j, inserted, cur, merged);
        merged := merged + [current];
        i, j := i + 1, j + 1;
        continue;
      }
      if cur.end < current.start {
        SweepPast(existing, next, n, i, j, inserted, cur, merged);
        if !inserted {
          merged := merged + [cur];
          inserted := true;
        }
        merged := merged + [current];
        continue;
      }
      ghost var before := cur;
      if current.start < cur.start {
        cur := cur.(start := current.start);
      }
      if current.end > cur.end {
        cur := cur.(end := current.end);
      }
      SweepAbsorb(existing, next, n, i, j, inserted, before, merged, cur);
      j := j + 1;
    }
    SweepDone(existing, next, i, j, inserted, cur, merged);
    if !inserted {
      merged := merged + [cur];
    }
  }

  // ----- internal/fs/range.go

  predicate Precedes(a: ByteRange, b: ByteRange) {
    a.start < b.start || (a.start == b.start && a.end <= b.end)
  }

  predicate SortedRanges(rs: seq<ByteRange>) {
    forall i, j :: 0 <= i < j < |rs| ==> Precedes(rs[i], rs[j])
  }

  /** Stands for the library sort: start first, then end. */
  method SortRanges(ranges: seq<ByteRange>) returns (sorted: seq<ByteRange>)
    ensures SortedRanges(sorted) && multiset(sorted) == multiset(ranges)
  {
    sorted := [];
    for n := 0 to |ranges|
      invariant SortedRanges(sorted) && multiset(sorted) == multiset(ranges[..n])
    {
      assert ranges[..n + 1] == ranges[..n] + [ranges[n]];
      sorted := SortedInsert(sorted, ranges[n]);
    }
    assert ranges[..|ranges|] == ranges;
  }

  method SortedInsert(rs: seq<ByteRange>, r: ByteRange) returns (out: seq<ByteRange>)
    requires SortedRanges(rs)
    ensures SortedRanges(out) && multiset(out) == multiset(rs) + multiset{r}
  {
    var p := 0;
    while p < |rs| && Precedes(rs[p], r)
      invariant 0 <= p <= |rs|
      invariant forall k :: 0 <= k < p ==> Precedes(rs[k], r)
    {
      p := p + 1;
    }
    out := rs[..p] + [r] + rs[p..];
    assert multiset(out) == multiset(rs[..p] + rs[p..]) + multiset{r};
    assert rs == rs[..p] + rs[p..];
    forall k | p <= k < |rs| ensures Precedes(r, rs[k]) {
      assert Precedes(r, rs[p]);
      assert k > p ==> Precedes(rs[p], rs[k]);
    }
    SortedAround(rs[..p], r, rs[p..]);
  }

  lemma SortedAround(left: seq<ByteRange>, mid: ByteRange, right: seq<ByteRange>)
    requires SortedRanges(left) && SortedRanges(right)
    requires forall k :: 0 <= k < |left| ==> Precedes(left[k], mid)
    requires forall k :: 0 <= k < |right| ==> Precedes(mid, right[k])
    ensures SortedRanges(left + [mid] + right)
  {
  }

  lemma PermutationCovers(a: seq<ByteRange>, b: seq<ByteRange>)
    requires multiset(a) == multiset(b)
    ensures SameOffsets(a, b) && (NonEmpty(a) ==> NonEmpty(b))
    ensures forall r :: r in a <==> r in b
  {
    forall r ensures r in a <==> r in b {
      assert r in a <==> r in multiset(a);
      assert r in b <==> r in multiset(b);
    }
    forall x ensures Covers(a, x) <==> Covers(b, x) {
      if Covers(a, x) {
        var k :| 0 <= k < |a| && InRange(a[k], x);
        assert a[k] in b;
        var m :| 0 <= m < |b| && b[m] == a[k];
        assert InRange(b[m], x);
      }
      if Covers(b, x) {
        var k :| 0 <= k < |b| && InRange(b[k], x);
        assert b[k] in a;
        var m :| 0 <= m < |a| && a[m] == b[k];
        assert InRange(a[m], x);
      }
    }
    if NonEmpty(a) {
      forall i | 0 <= i < |b| ensures b[i].start < b[i].end {
        assert b[i] in a;
      }
    }
  }

  lemma CoversConcat(a: seq<ByteRange>, b: seq<ByteRange>, x: int)
    ensures Covers(a + b, x) <==> Covers(a, x) || Covers(b, x)
  {
    var c := a + b;
    if Covers(a, x) {
      var k :| 0 <= k < |a| && InRange(a[k], x);
      assert InRange(c[k], x);
    }
    if Covers(b, x) {
      var k :| 0 <= k < |b| && InRange(b[k], x);
      assert InRange(c[|a| + k], x);
    }
    if Covers(c, x) {
      var k :| 0 <= k < |c| && InRange(c[k], x);
      if k < |a| { assert InRange(a[k], x); } else { assert InRange(b[k - |a|], x); }
    }
  }

  lemma CoversSingle(r: ByteRange, x: int)
    ensures Covers([r], x) <==> InRange(r, x)
  {
    if InRange(r, x) { assert InRange([r][0], x); }
  }

  lemma CoversGrow(rs: seq<ByteRange>, n: nat)
    requires n < |rs|
    ensures forall x :: Covers(rs[..n + 1], x) <==> Covers(rs[..n], x) || InRange(rs[n], x)
  {
    assert rs[..n + 1] == rs[..n] + [rs[n]];
    forall x ensures Covers(rs[..n + 1], x) <==> Covers(rs[..n], x) || InRange(rs[n], x) {
      CoversConcat(rs[..n], [rs[n]], x);
      CoversSingle(rs[n], x);
    }
  }

  /** The sort-and-sweep merge. It takes any spans, in any order; the offsets always
      survive, and if no input span is empty the result is the normal form. */
  method MergeByteRanges(ranges: seq<ByteRange>) returns (merged: seq<ByteRange>)
    ensures SameOffsets(merged, ranges)
    ensures NonEmpty(ranges) ==> Canonical(merged)
  {
    if |ranges| == 0 {
      return [];
    }
    var sorted := SortRanges(ranges);
    PermutationCovers(ranges, sorted);
    assert |sorted| > 0 by {
      assert ranges[0] in sorted;
    }
    merged := sorted[..1];
    assert sorted[..1] == [sorted[0]];
    for n := 1 to |sorted|
      invariant 0 < |merged|
      invariant merged[|merged| - 1].start <= sorted[n - 1].start
      invariant exists m :: 0 <= m < n && merged[|merged| - 1].start == sorted[m].start
      invariant SameOffsets(merged, sorted[..n])
      invariant NonEmpty(ranges) ==> Canonical(merged)
    {
      var r := sorted[n];
      var last := merged[|merged| - 1];
      assert Precedes(sorted[n - 1], r);
      assert sorted[..n + 1] == sorted[..n] + [r];
      if r.start <= last.end {
        ghost var before := merged;
        if r.end > last.end {
          merged := merged[|merged| - 1 := last.(end := r.end)];
        }
        forall x ensures Covers(merged, x) <==> Covers(sorted[..n + 1], x) {
          SweepAbsorbs(before, r, merged, x);
          CoversConcat(sorted[..n], [r], x);
          CoversSingle(r, x);
        }
        continue;
      }
      forall x ensures Covers(merged + [r], x) <==> Covers(sorted[..n + 1], x) {
        CoversConcat(sorted[..n], [r], x);
        CoversConcat(merged, [r], x);
      }
      merged := merged + [r];
    }
    assert sorted[..|sorted|] == sorted;
  }

  lemma SweepAbsorbs(before: seq<ByteRange>, r: ByteRange, after: seq<ByteRange>, x: int)
    requires 0 < |before|
    requires before[|before| - 1].start <= r.start <= before[|before| - 1].end
    requires after == before[|before| - 1 :=
      before[|before| - 1].(end := if r.end > before[|before| - 1].end then r.end else before[|before| - 1].end)]
    ensures Covers(after, x) <==> Covers(before, x) || InRange(r, x)
  {
    var n := |before| - 1;
    if Covers(before, x) {
      var k :| 0 <= k < |before| && InRange(before[k], x);
      assert InRange(after[k], x);
    }
    if InRange(r, x) { assert InRange(after[n], x); }
    if Covers(after, x) && !InRange(r, x) {
      var k :| 0 <= k < |after| && InRange(after[k], x);
      assert InRange(before[k], x);
    }
  }

  /** The accumulator the write overlay uses: drop an empty span, else sort and sweep. */
  method AppendMerge(existing: seq<ByteRange>, next: ByteRange) returns (merged: seq<ByteRange>)
    requires Canonical(existing)
    ensures IsUnion(merged, existing, next.start, next.end)
  {
    if next.end <= next.start {
      return existing;
    }
    merged := MergeByteRanges(existing + [next]);
    forall x ensures Covers(merged, x) <==> Covers(existing, x) || next.start <= x < next.end {
      CoversConcat(existing, [next], x);
      CoversSingle(next, x);
    }
  }
}
