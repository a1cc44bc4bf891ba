/** A patch commit drops the spans it has published from the dirty list while it walks that
    same list. The list and the walk share one array, so the walk does not see every span. */
module SharedWalk {
  import opened ByteRanges

  /** What is left of a list when each of its spans in turn is removed while the walk reads
      the same array: every second span, the last one never. */
  ghost function Leftover(rs: seq<ByteRange>): (left: seq<ByteRange>)
    ensures rs == [] ==> left == []
    ensures rs != [] ==> |left| == (|rs| - 1) / 2 && forall j :: 0 <= j < |left| ==> left[j] == rs[2 * j + 1]
  {
    if rs == [] then [] else seq((|rs| - 1) / 2, j requires 0 <= j < (|rs| - 1) / 2 => rs[2 * j + 1])
  }

  ghost function Without(s: seq<ByteRange>, r: ByteRange): seq<ByteRange> {
    if s == [] then []
    else Without(s[..|s| - 1], r) + (if s[|s| - 1] == r then [] else [s[|s| - 1]])
  }

  lemma {:induction false} WithoutAbsent(s: seq<ByteRange>, r: ByteRange)
    requires r !in s
    ensures Without(s, r) == s
    decreases |s|
  {
    if s != [] {
      WithoutAbsent(s[..|s| - 1], r);
    }
  }

  lemma {:induction false} WithoutAt(s: seq<ByteRange>, i: nat)
    requires i < |s| && forall k :: 0 <= k < |s| && k != i ==> s[k] != s[i]
    ensures Without(s, s[i]) == s[..i] + s[i + 1..]
    decreases |s|
  {
    var n := |s| - 1;
    if i == n {
      WithoutAbsent(s[..n], s[i]);
    } else {
      assert s[..n][i] == s[i];
      WithoutAt(s[..n], i);
      assert s[..n][..i] + s[..n][i + 1..] + [s[n]] == s[..i] + s[i + 1..];
    }
  }

  /** The list after `k` turns of the walk. */
  ghost function AfterTurns(rs: seq<ByteRange>, k: nat): seq<ByteRange> {
    if 2 * k <= |rs| then
      seq(|rs| - k, j requires 0 <= j < |rs| - k => if j < k then rs[2 * j + 1] else rs[j + k])
    else Leftover(rs)
  }

  /** The span read in turn `k`: past the end of the list the array still holds the last span. */
  ghost function ReadInTurn(rs: seq<ByteRange>, k: nat): ByteRange
    requires rs != []
  {
    if 2 * k < |rs| then rs[2 * k] else rs[|rs| - 1]
  }

  lemma SpansDiffer(rs: seq<ByteRange>, p: nat, q: nat)
    requires Canonical(rs) && p < |rs| && q < |rs| && p != q
    ensures rs[p] != rs[q]
  {
    if p < q {
      assert rs[p].end < rs[q].start;
    } else {
      assert rs[q].end < rs[p].start;
    }
  }

  /** The first half of the walk removes the even spans, one a turn. */
  lemma TurnRemovesEven(rs: seq<ByteRange>, k: nat)
    requires Canonical(rs) && 2 * k < |rs|
    ensures Without(AfterTurns(rs, k), rs[2 * k]) == AfterTurns(rs, k + 1)
  {
    var cur := AfterTurns(rs, k);
    assert cur[k] == rs[2 * k];
    forall j | 0 <= j < |cur| && j != k ensures cur[j] != cur[k] {
      SpansDiffer(rs, if j < k then 2 * j + 1 else j + k, 2 * k);
    }
    WithoutAt(cur, k);
    EvenDropped(rs, k);
  }

  lemma EvenDropped(rs: seq<ByteRange>, k: nat)
    requires 2 * k < |rs|
    ensures AfterTurns(rs, k)[..k] + AfterTurns(rs, k)[k + 1..] == AfterTurns(rs, k + 1)
  {
    var cur, next := AfterTurns(rs, k), AfterTurns(rs, k + 1);
    assert |next| == |cur| - 1;
    forall j | 0 <= j < k ensures next[j] == cur[j] {
      EvenDroppedAt(rs, k, j);
    }
    forall j | k <= j < |next| ensures next[j] == cur[j + 1] {
      EvenDroppedAt(rs, k, j);
    }
    assert cur[..k] + cur[k + 1..] == next;
  }

  lemma AfterTurnsAt(rs: seq<ByteRange>, k: nat, j: nat)
    requires 2 * k <= |rs| && j < |rs| - k
    ensures |AfterTurns(rs, k)| == |rs| - k && AfterTurns(rs, k)[j] == if j < k then rs[2 * j + 1] else rs[j + k]
  {
  }

  lemma LeftoverAt(rs: seq<ByteRange>, k: nat, j: nat)
    requires 2 * k > |rs| && j < (|rs| - 1) / 2
    ensures |AfterTurns(rs, k)| == (|rs| - 1) / 2 && AfterTurns(rs, k)[j] == rs[2 * j + 1]
  {
  }

  lemma EvenDroppedAt(rs: seq<ByteRange>, k: nat, j: nat)
    requires 2 * k < |rs| && j < |rs| - k - 1
    ensures |AfterTurns(rs, k + 1)| == |rs| - k - 1
    ensures AfterTurns(rs, k + 1)[j] == AfterTurns(rs, k)[if j < k then j else j + 1]
  {
    AfterTurnsAt(rs, k, if j < k then j else j + 1);
    if 2 * k + 1 == |rs| {
      LeftoverAt(rs, k + 1, j);
    } else {
      AfterTurnsAt(rs, k + 1, j);
    }
  }

  /** Then it reads the last span over and over. */
  lemma TurnRemovesLast(rs: seq<ByteRange>, k: nat)
    requires Canonical(rs) && |rs| <= 2 * k && k < |rs|
    ensures Without(AfterTurns(rs, k), rs[|rs| - 1]) == AfterTurns(rs, k + 1)
  {
    if 2 * k == |rs| {
      LastDropped(rs, k);
    } else {
      LastAbsent(rs, k);
    }
  }

  lemma LastDropped(rs: seq<ByteRange>, k: nat)
    requires Canonical(rs) && |rs| == 2 * k && k > 0
    ensures Without(AfterTurns(rs, k), rs[|rs| - 1]) == AfterTurns(rs, k + 1)
  {
    var cur := AfterTurns(rs, k);
    forall j | 0 <= j < k ensures |cur| == k && cur[j] == rs[2 * j + 1] {
      AfterTurnsAt(rs, k, j);
    }
    forall j | 0 <= j < k - 1 ensures cur[j] != cur[k - 1] {
      SpansDiffer(rs, 2 * j + 1, 2 * k - 1);
    }
    WithoutAt(cur, k - 1);
    CutLast(cur, k);
    HalfIsLeft(rs, k);
  }

  lemma CutLast(s: seq<ByteRange>, k: nat)
    requires |s| == k > 0
    ensures s[..k - 1] + s[k..] == s[..k - 1]
  {
  }

  lemma HalfIsLeft(rs: seq<ByteRange>, k: nat)
    requires |rs| == 2 * k && k > 0
    ensures |AfterTurns(rs, k)| == k && AfterTurns(rs, k)[..k - 1] == AfterTurns(rs, k + 1)
  {
    AfterTurnsAt(rs, k, 0);
    forall j | 0 <= j < k - 1 ensures AfterTurns(rs, k)[j] == AfterTurns(rs, k + 1)[j] {
      AfterTurnsAt(rs, k, j);
      LeftoverAt(rs, k + 1, j);
    }
  }

  lemma LastAbsent(rs: seq<ByteRange>, k: nat)
    requires Canonical(rs) && |rs| < 2 * k && k < |rs|
    ensures Without(AfterTurns(rs, k), rs[|rs| - 1]) == AfterTurns(rs, k + 1)
  {
    var cur := AfterTurns(rs, k);
    assert AfterTurns(rs, k + 1) == cur == Leftover(rs);
    forall j | 0 <= j < |cur| ensures cur[j] != rs[|rs| - 1] {
      SpansDiffer(rs, 2 * j + 1, |rs| - 1);
    }
    WithoutAbsent(cur, rs[|rs| - 1]);
  }

  /** One removal in place. The spans of the list are apart, so each one either is the
      removed span or does not meet it. */
  method RemoveInPlace(a: array<ByteRange>, len: nat, r: ByteRange) returns (kept: nat)
    requires len <= a.Length && r.start < r.end
    requires forall k :: 0 <= k < len ==> a[k] == r || a[k].end <= r.start || r.end <= a[k].start
    modifies a
    ensures kept <= len && a[..kept] == Without(old(a[..len]), r)
    ensures forall k :: kept <= k < a.Length ==> a[k] == old(a[k])
  {
    kept := 0;
    ghost var was := a[..];
    for n := 0 to len
      invariant kept <= n
      invariant a[..kept] == Without(was[..n], r)
      invariant forall k :: kept <= k < a.Length ==> a[k] == was[k]
    {
      assert was[..n + 1][..n] == was[..n];
      var current := a[n];
      if current.end <= r.start || current.start >= r.end {
        a[kept] := current;
        assert a[..kept + 1] == a[..kept] + [current];
        kept := kept + 1;
      }
    }
    assert was[..len] == old(a[..len]);
  }

  /** The state of the walk: the first `len` slots are the list, the rest repeat the last span. */
  ghost predicate WalkState(a: seq<ByteRange>, len: nat, rs: seq<ByteRange>, k: nat) {
    && |a| == |rs| && len <= |a|
    && a[..len] == AfterTurns(rs, k)
    && forall j :: len <= j < |a| ==> a[j] == rs[|rs| - 1]
  }

  lemma WalkReads(a: seq<ByteRange>, len: nat, rs: seq<ByteRange>, k: nat)
    requires WalkState(a, len, rs, k) && k < |rs|
    ensures a[k] == ReadInTurn(rs, k)
  {
    if k < len {
      assert a[..len][k] == a[k];
    }
  }

  lemma WalkApart(a: seq<ByteRange>, len: nat, rs: seq<ByteRange>, k: nat)
    requires Canonical(rs) && WalkState(a, len, rs, k) && k < |rs|
    ensures forall j :: 0 <= j < len ==> a[j] == a[k] || a[j].end <= a[k].start || a[k].end <= a[j].start
    ensures a[k].start < a[k].end
  {
    WalkReads(a, len, rs, k);
    var q := if 2 * k < |rs| then 2 * k else |rs| - 1;
    forall j | 0 <= j < len ensures a[j] == a[k] || a[j].end <= a[k].start || a[k].end <= a[j].start {
      assert a[j] == a[..len][j];
      var p := if 2 * k <= |rs| && j >= k then j + k else 2 * j + 1;
      assert a[j] == rs[p];
      if p < q {
        assert rs[p].end < rs[q].start;
      } else if q < p {
        assert rs[q].end < rs[p].start;
      }
    }
  }

  lemma WalkStep(before: seq<ByteRange>, len: nat, after: seq<ByteRange>, kept: nat, rs: seq<ByteRange>, k: nat)
    requires Canonical(rs) && WalkState(before, len, rs, k) && k < |rs|
    requires kept <= len && |after| == |before| && after[..kept] == Without(before[..len], before[k])
    requires forall j :: kept <= j < |after| ==> after[j] == before[j]
    ensures WalkState(after, kept, rs, k + 1)
  {
    WalkReads(before, len, rs, k);
    if 2 * k < |rs| {
      TurnRemovesEven(rs, k);
    } else {
      TurnRemovesLast(rs, k);
    }
    forall j | kept <= j < |after| ensures after[j] == rs[|rs| - 1] {
      if j < len {
        LastIsLast(rs, k, j);
        assert before[j] == before[..len][j];
      }
    }
  }

  /** A turn drops at most one slot, and the slot it drops held the last span. */
  lemma LastIsLast(rs: seq<ByteRange>, k: nat, j: nat)
    requires k < |rs| && |AfterTurns(rs, k + 1)| <= j < |AfterTurns(rs, k)|
    ensures AfterTurns(rs, k)[j] == rs[|rs| - 1]
  {
  }

  /** The consuming walk of a patch commit: the planned list and the dirty list are one array. */
  method ConsumePlanned(rs: seq<ByteRange>) returns (left: seq<ByteRange>)
    requires Canonical(rs)
    ensures left == Leftover(rs)
  {
    var n := |rs|;
    var a := new ByteRange[n](i requires 0 <= i < n => rs[i]);
    var len := n;
    assert a[..len] == AfterTurns(rs, 0);
    for k := 0 to n
      invariant WalkState(a[..], len, rs, k)
    {
      label Turn:
      ghost var before := a[..];
      WalkApart(before, len, rs, k);
      var kept := RemoveInPlace(a, len, a[k]);
      assert a[..][..kept] == a[..kept] && before[..len] == old@Turn(a[..len]);
      WalkStep(before, len, a[..], kept, rs, k);
      len := kept;
    }
    left := a[..len];
    assert a[..][..len] == left;
  }
}
