/** The page-sized edits of a patch: what they carry, which batches the hub takes, and what a batch
    does to stored content of any size. */
module PatchPlan {
  import opened FileBytes
  import opened Numbers
  import opened ByteRanges
  import opened HubFile
  import opened CommitPlan

  // ----- the edits

  /** The edits of one dirty span: one per page, deleting only what the old content holds. */
  function PageEdits(offset: nat, end: nat, page: nat, baseSize: nat, view: seq<Byte>): seq<RangeEdit>
    requires page > 0 && end <= |view|
    decreases end - offset
  {
    if offset >= end then []
    else
      var next := Min(offset + page, end);
      [RangeEdit(offset, DeleteSize(offset, next, baseSize), view[offset..next])]
        + PageEdits(next, end, page, baseSize, view)
  }

  function DeleteSize(offset: nat, end: nat, baseSize: nat): int
    requires offset <= end
  {
    if offset >= baseSize then 0 else Min(end - offset, baseSize - offset)
  }

  /** Taking the first page off the rest of a span. */
  lemma NextPageEdit(done: seq<RangeEdit>, all: seq<RangeEdit>, e: RangeEdit, offset: nat, end: nat,
                     page: nat, baseSize: nat, view: seq<Byte>)
    requires page > 0 && offset < end <= |view|
    requires done + PageEdits(offset, end, page, baseSize, view) == all
    requires e == RangeEdit(offset, DeleteSize(offset, Min(offset + page, end), baseSize), view[offset..Min(offset + page, end)])
    ensures (done + [e]) + PageEdits(Min(offset + page, end), end, page, baseSize, view) == all
  {
    assert PageEdits(offset, end, page, baseSize, view) == [e] + PageEdits(Min(offset + page, end), end, page, baseSize, view);
  }

  function SpanEdits(dirty: seq<ByteRange>, page: nat, baseSize: nat, view: seq<Byte>): seq<RangeEdit>
    requires page > 0 && NonEmpty(dirty) && Within(dirty, 0, |view|)
    decreases |dirty|
  {
    if dirty == [] then []
    else
      var n := |dirty| - 1;
      SpanEdits(dirty[..n], page, baseSize, view) + PageEdits(dirty[n].start, dirty[n].end, page, baseSize, view)
  }

  lemma SpanEditsNext(dirty: seq<ByteRange>, n: nat, page: nat, baseSize: nat, view: seq<Byte>)
    requires page > 0 && NonEmpty(dirty) && Within(dirty, 0, |view|) && n < |dirty|
    ensures SpanEdits(dirty[..n + 1], page, baseSize, view) ==
      SpanEdits(dirty[..n], page, baseSize, view) + PageEdits(dirty[n].start, dirty[n].end, page, baseSize, view)
  {
    assert dirty[..n + 1][..n] == dirty[..n];
  }

  predicate EditOf(e: RangeEdit, baseSize: nat, view: seq<Byte>) {
    && 0 <= e.start < e.start + |e.data| <= |view|
    && e.data == view[e.start..e.start + |e.data|]
    && e.deleteSize == DeleteSize(e.start, e.start + |e.data|, baseSize)
  }

  /** Edits that carry the shown bytes, in order and apart. */
  predicate EditRun(edits: seq<RangeEdit>, baseSize: nat, view: seq<Byte>) {
    && (forall i :: 0 <= i < |edits| ==> EditOf(edits[i], baseSize, view))
    && (forall i, j :: 0 <= i < j < |edits| ==> edits[i].start + |edits[i].data| <= edits[j].start)
  }

  predicate InEdits(edits: seq<RangeEdit>, x: int) {
    exists i :: 0 <= i < |edits| && edits[i].start <= x < edits[i].start + |edits[i].data|
  }

  predicate EditsBetween(edits: seq<RangeEdit>, lo: int, hi: int) {
    forall i :: 0 <= i < |edits| ==> lo <= edits[i].start && edits[i].start + |edits[i].data| <= hi
  }

  lemma EditRunConcat(a: seq<RangeEdit>, b: seq<RangeEdit>, mid: int, baseSize: nat, view: seq<Byte>)
    requires EditRun(a, baseSize, view) && EditRun(b, baseSize, view)
    requires forall i :: 0 <= i < |a| ==> a[i].start + |a[i].data| <= mid
    requires forall i :: 0 <= i < |b| ==> mid <= b[i].start
    ensures EditRun(a + b, baseSize, view)
  {
  }

  lemma InEditsConcat(a: seq<RangeEdit>, b: seq<RangeEdit>, x: int)
    ensures InEdits(a + b, x) <==> InEdits(a, x) || InEdits(b, x)
  {
    var c := a + b;
    if InEdits(a, x) {
      var i :| 0 <= i < |a| && a[i].start <= x < a[i].start + |a[i].data|;
      assert c[i] == a[i];
    }
    if InEdits(b, x) {
      var i :| 0 <= i < |b| && b[i].start <= x < b[i].start + |b[i].data|;
      assert c[|a| + i] == b[i];
    }
  }

  lemma {:induction false} PageEditsShape(offset: nat, end: nat, page: nat, baseSize: nat, view: seq<Byte>)
    requires page > 0 && end <= |view|
    ensures EditRun(PageEdits(offset, end, page, baseSize, view), baseSize, view)
    ensures EditsBetween(PageEdits(offset, end, page, baseSize, view), offset, end)
    ensures forall x :: InEdits(PageEdits(offset, end, page, baseSize, view), x) <==> offset <= x < end
    decreases end - offset
  {
    if offset < end {
      var next := Min(offset + page, end);
      var head := RangeEdit(offset, DeleteSize(offset, next, baseSize), view[offset..next]);
      var rest := PageEdits(next, end, page, baseSize, view);
      PageEditsShape(next, end, page, baseSize, view);
      EditRunConcat([head], rest, next, baseSize, view);
      forall x ensures InEdits([head] + rest, x) <==> offset <= x < end {
        InEditsConcat([head], rest, x);
        assert InEdits([head], x) <==> offset <= x < next by {
          if offset <= x < next { assert [head][0].start <= x; }
        }
      }
    }
  }

  lemma {:induction false} SpanEditsShape(dirty: seq<ByteRange>, page: nat, baseSize: nat, view: seq<Byte>)
    requires page > 0 && Canonical(dirty) && Within(dirty, 0, |view|)
    ensures EditRun(SpanEdits(dirty, page, baseSize, view), baseSize, view)
    ensures dirty != [] ==> EditsBetween(SpanEdits(dirty, page, baseSize, view), 0, dirty[|dirty| - 1].end)
    ensures forall x :: InEdits(SpanEdits(dirty, page, baseSize, view), x) <==> Covers(dirty, x)
    decreases |dirty|
  {
    if dirty != [] {
      var n := |dirty| - 1;
      var r := dirty[n];
      var before := SpanEdits(dirty[..n], page, baseSize, view);
      var last := PageEdits(r.start, r.end, page, baseSize, view);
      SpanEditsShape(dirty[..n], page, baseSize, view);
      PageEditsShape(r.start, r.end, page, baseSize, view);
      if n > 0 {
        assert dirty[..n][n - 1] == dirty[n - 1] && dirty[n - 1].end < r.start;
      }
      EditRunConcat(before, last, r.start, baseSize, view);
      CoversGrow(dirty, n);
      assert dirty[..n + 1] == dirty;
      forall x ensures InEdits(before + last, x) <==> Covers(dirty, x) {
        InEditsConcat(before, last, x);
      }
    }
  }

  // ----- which batches the hub takes

  /** No page of a dirty span starts past offset `baseSize`. */
  predicate PatchFits(dirty: seq<ByteRange>, page: nat, baseSize: nat)
    requires page > 0
  {
    forall k :: 0 <= k < |dirty| && dirty[k].start < dirty[k].end ==>
      LastPage(dirty[k].start, dirty[k].end, page) <= baseSize
  }

  /** Where the last page of a span starts. */
  function LastPage(offset: int, end: int, page: nat): int
    requires page > 0 && offset < end
  {
    offset + (end - 1 - offset) / page * page
  }

  lemma LastPageStep(offset: int, end: int, page: nat)
    requires page > 0 && offset < end
    ensures offset <= LastPage(offset, end, page) < end
    ensures offset + page >= end ==> LastPage(offset, end, page) == offset
    ensures offset + page < end ==> LastPage(offset, end, page) == LastPage(offset + page, end, page)
  {
    FloorBounds(end - 1 - offset, page);
    if offset + page >= end {
      StepBelow(0, (end - 1 - offset) / page, page);
    } else {
      DivAddOne(end - 1 - offset - page, page);
    }
  }

  predicate StartsWithin(edits: seq<RangeEdit>, baseSize: nat) {
    forall i :: 0 <= i < |edits| ==> edits[i].start <= baseSize
  }

  lemma {:induction false} PageStarts(offset: nat, end: nat, page: nat, baseSize: nat, view: seq<Byte>, stored: nat)
    requires page > 0 && offset < end <= |view|
    ensures StartsWithin(PageEdits(offset, end, page, baseSize, view), stored) <==> LastPage(offset, end, page) <= stored
    decreases end - offset
  {
    var next := Min(offset + page, end);
    var head := RangeEdit(offset, DeleteSize(offset, next, baseSize), view[offset..next]);
    var rest := PageEdits(next, end, page, baseSize, view);
    LastPageStep(offset, end, page);
    StartsConcat([head], rest, stored);
    assert [head][0].start == offset;
    assert StartsWithin([head], stored) <==> offset <= stored;
    if next < end {
      PageStarts(next, end, page, baseSize, view, stored);
      LastPageStep(next, end, page);
    }
  }

  lemma StartsConcat(a: seq<RangeEdit>, b: seq<RangeEdit>, baseSize: nat)
    ensures StartsWithin(a + b, baseSize) <==> StartsWithin(a, baseSize) && StartsWithin(b, baseSize)
  {
    if StartsWithin(a + b, baseSize) {
      forall i | 0 <= i < |a| ensures a[i].start <= baseSize { assert (a + b)[i] == a[i]; }
      forall i | 0 <= i < |b| ensures b[i].start <= baseSize { assert (a + b)[|a| + i] == b[i]; }
    }
  }

  lemma {:induction false} SpanStarts(dirty: seq<ByteRange>, page: nat, baseSize: nat, view: seq<Byte>, stored: nat)
    requires page > 0 && Canonical(dirty) && Within(dirty, 0, |view|)
    ensures StartsWithin(SpanEdits(dirty, page, baseSize, view), stored) <==> PatchFits(dirty, page, stored)
    decreases |dirty|
  {
    if dirty != [] {
      var n := |dirty| - 1;
      var before := SpanEdits(dirty[..n], page, baseSize, view);
      var last := PageEdits(dirty[n].start, dirty[n].end, page, baseSize, view);
      SpanStarts(dirty[..n], page, baseSize, view, stored);
      PageStarts(dirty[n].start, dirty[n].end, page, baseSize, view, stored);
      StartsConcat(before, last, stored);
      FitsGrow(dirty, page, stored);
    }
  }

  lemma FitsGrow(dirty: seq<ByteRange>, page: nat, baseSize: nat)
    requires page > 0 && Canonical(dirty) && dirty != []
    ensures var n := |dirty| - 1;
      PatchFits(dirty, page, baseSize)
      <==> PatchFits(dirty[..n], page, baseSize) && LastPage(dirty[n].start, dirty[n].end, page) <= baseSize
  {
    var n := |dirty| - 1;
    assert forall k :: 0 <= k < n ==> dirty[..n][k] == dirty[k];
    if PatchFits(dirty, page, baseSize) {
      forall k | 0 <= k < n ensures LastPage(dirty[..n][k].start, dirty[..n][k].end, page) <= baseSize {
        assert dirty[..n][k] == dirty[k];
      }
    }
  }

  /** Whether the hub takes the batch of a commit that believes in `baseSize` bytes while `stored`
      are stored. */
  predicate PatchTaken(dirty: seq<ByteRange>, page: nat, baseSize: nat, stored: nat)
    requires page > 0
  {
    dirty != [] && if baseSize <= stored then PatchFits(dirty, page, stored) else dirty[|dirty| - 1].end <= stored
  }

  /** The hub takes the batch of a patch commit exactly when no page starts past the stored end; or,
      where less is stored than believed, when no dirty byte lies past it. */
  lemma PatchTakenIff(dirty: seq<ByteRange>, page: nat, baseSize: nat, stored: nat, view: seq<Byte>)
    requires page > 0 && Canonical(dirty) && Within(dirty, 0, |view|) && dirty != []
    ensures BatchAccepted(SpanEdits(dirty, page, baseSize, view), stored) <==> PatchTaken(dirty, page, baseSize, stored)
  {
    var edits := SpanEdits(dirty, page, baseSize, view);
    SpanEditsShape(dirty, page, baseSize, view);
    SpanStarts(dirty, page, baseSize, view, stored);
    LastEditEnds(dirty, page, baseSize, view);
    EditsOrdered(edits, baseSize, view);
    if baseSize <= stored {
      EndsAreStarts(edits, baseSize, stored, view);
    } else {
      EndsAreEnds(edits, baseSize, stored, view, dirty[|dirty| - 1].end);
    }
  }

  lemma EditsOrdered(edits: seq<RangeEdit>, baseSize: nat, view: seq<Byte>)
    requires EditRun(edits, baseSize, view)
    ensures forall i :: 0 <= i < |edits| ==> edits[i].start >= 0 && edits[i].deleteSize >= 0 && |edits[i].data| > 0
    ensures forall i, j :: 0 <= i < j < |edits| ==> edits[i].End() <= edits[j].start
  {
    assert forall i :: 0 <= i < |edits| ==> EditOf(edits[i], baseSize, view);
  }

  predicate EndsWithin(edits: seq<RangeEdit>, stored: nat) {
    forall i :: 0 <= i < |edits| ==> edits[i].End() <= stored
  }

  /** What an edit deletes lies below the old size, so only its start matters past it. */
  lemma EndsAreStarts(edits: seq<RangeEdit>, baseSize: nat, stored: nat, view: seq<Byte>)
    requires EditRun(edits, baseSize, view) && baseSize <= stored
    ensures EndsWithin(edits, stored) <==> StartsWithin(edits, stored)
  {
    forall i | 0 <= i < |edits| ensures edits[i].End() <= stored <==> edits[i].start <= stored {
      assert EditOf(edits[i], baseSize, view);
    }
  }

  lemma EndsAreEnds(edits: seq<RangeEdit>, baseSize: nat, stored: nat, view: seq<Byte>, end: int)
    requires EditRun(edits, baseSize, view) && stored < baseSize && edits != []
    requires EditsBetween(edits, 0, end) && edits[|edits| - 1].start + |edits[|edits| - 1].data| == end
    ensures EndsWithin(edits, stored) <==> end <= stored
  {
    assert EditOf(edits[|edits| - 1], baseSize, view);
    forall i | 0 <= i < |edits| && end <= stored ensures edits[i].End() <= stored {
      assert EditOf(edits[i], baseSize, view);
    }
  }

  // ----- what a batch does

  /** Below `n`, every byte of the edits is the byte shown and every other byte is as before. */
  ghost predicate Shows(out: seq<Byte>, n: int, content: seq<Byte>, edits: seq<RangeEdit>, view: seq<Byte>) {
    n <= |out| && forall x :: 0 <= x < n ==> out[x] == if InEdits(edits, x) then At(view, x) else At(content, x)
  }

  /** How far a batch is in place: up to the first edit that grows the old content, or past it. */
  function InPlace(edits: seq<RangeEdit>, baseSize: nat): int {
    if edits == [] || edits[0].start > baseSize then baseSize
    else if edits[0].start + |edits[0].data| <= baseSize then InPlace(edits[1..], baseSize)
    else edits[0].start + |edits[0].data|
  }

  function Growth(edits: seq<RangeEdit>): int {
    if edits == [] then 0 else |edits[0].data| - edits[0].deleteSize + Growth(edits[1..])
  }

  /** The outcome of a batch on content that holds at least the bytes it believes in: right as far
      as it is in place, and right behind that the first stored byte it did not know of. */
  ghost predicate Laid(out: seq<Byte>, content: seq<Byte>, edits: seq<RangeEdit>, baseSize: nat, view: seq<Byte>) {
    && Shows(out, InPlace(edits, baseSize), content, edits, view)
    && (baseSize < |content| ==> 0 <= InPlace(edits, baseSize) < |out| && out[InPlace(edits, baseSize)] == content[baseSize])
  }

  lemma {:induction false} BatchLaid(content: seq<Byte>, edits: seq<RangeEdit>, baseSize: nat, view: seq<Byte>)
    requires baseSize <= |content| && EditRun(edits, baseSize, view) && Inside(edits, |content|, 0)
    ensures Laid(ApplyEdits(content, edits, 0), content, edits, baseSize, view)
    decreases |edits|
  {
    if edits == [] {
    } else if edits[0].start > baseSize {
      LaterEdits(content, edits, 0, if baseSize < |content| then baseSize + 1 else baseSize);
      BeforeEdits(edits, baseSize, view, baseSize);
    } else if edits[0].start + |edits[0].data| <= baseSize {
      SpliceShows(content, edits[0], baseSize, view);
      RunTail(edits, baseSize, |content|, view);
      BatchLaid(SpliceOne(content, edits[0].start, edits[0]), edits[1..], baseSize, view);
      HeadThenRest(content, edits, baseSize, view);
    } else {
      GrowingLaid(content, edits, baseSize, view);
    }
  }

  /** An edit inside the old content replaces as much as it deletes, so the others stay where they are. */
  lemma HeadThenRest(content: seq<Byte>, edits: seq<RangeEdit>, baseSize: nat, view: seq<Byte>)
    requires baseSize <= |content| && EditRun(edits, baseSize, view) && Inside(edits, |content|, 0)
    requires edits != [] && 0 <= edits[0].start && edits[0].start + |edits[0].data| <= baseSize && edits[0].deleteSize == |edits[0].data|
    requires Inside(edits[1..], |content|, 0)
    requires var spliced := SpliceOne(content, edits[0].start, edits[0]);
      Shows(spliced, |content|, content, [edits[0]], view)
        && Laid(ApplyEdits(spliced, edits[1..], 0), spliced, edits[1..], baseSize, view)
    ensures Laid(ApplyEdits(content, edits, 0), content, edits, baseSize, view)
  {
    var spliced := SpliceOne(content, edits[0].start, edits[0]);
    assert ApplyEdits(content, edits, 0) == ApplyEdits(spliced, edits[1..], 0);
    assert edits == [edits[0]] + edits[1..];
    ShowsCompose(content, edits[0], edits[1..], spliced, ApplyEdits(content, edits, 0), InPlace(edits, baseSize), view);
    if baseSize < |content| {
      NotInHead(edits[0], baseSize);
    }
  }

  lemma NotInHead(e: RangeEdit, x: int)
    requires e.start + |e.data| <= x
    ensures !InEdits([e], x)
  {
    InEditsOne(e, x);
  }

  /** The edit that grows the old content moves everything stored behind it. */
  lemma GrowingLaid(content: seq<Byte>, edits: seq<RangeEdit>, baseSize: nat, view: seq<Byte>)
    requires baseSize <= |content| && EditRun(edits, baseSize, view) && Inside(edits, |content|, 0)
    requires edits != [] && edits[0].start <= baseSize < edits[0].start + |edits[0].data|
    ensures Laid(ApplyEdits(content, edits, 0), content, edits, baseSize, view)
  {
    var end := edits[0].start + |edits[0].data|;
    var k := if baseSize < |content| then end + 1 else end;
    GrowingSplice(content, edits[0], baseSize, view);
    GrowingRest(content, edits, baseSize, view, k);
    GrowingShows(content, edits, baseSize, view, SpliceOne(content, edits[0].start, edits[0]), ApplyEdits(content, edits, 0), k);
  }

  lemma GrowingSplice(content: seq<Byte>, e: RangeEdit, baseSize: nat, view: seq<Byte>)
    requires baseSize <= |content| && EditOf(e, baseSize, view) && e.start <= baseSize < e.start + |e.data|
    ensures e.deleteSize == baseSize - e.start
    ensures var spliced := SpliceOne(content, e.start, e);
      |spliced| == e.start + |e.data| + |content| - baseSize && Shows(spliced, e.start + |e.data|, content, [e], view)
        && (baseSize < |content| ==> spliced[e.start + |e.data|] == content[baseSize])
  {
    SpliceShows(content, e, baseSize, view);
  }

  lemma GrowingRest(content: seq<Byte>, edits: seq<RangeEdit>, baseSize: nat, view: seq<Byte>, k: nat)
    requires EditRun(edits, baseSize, view) && Inside(edits, |content|, 0) && edits != [] && edits[0].start >= 0
    requires edits[0].deleteSize == baseSize - edits[0].start && baseSize < edits[0].start + |edits[0].data|
    requires k <= edits[0].start + |edits[0].data| + 1 && k <= |SpliceOne(content, edits[0].start, edits[0])|
    ensures k <= |ApplyEdits(content, edits, 0)|
    ensures ApplyEdits(content, edits, 0)[..k] == SpliceOne(content, edits[0].start, edits[0])[..k]
  {
    LaterEdits(SpliceOne(content, edits[0].start, edits[0]), edits[1..], |edits[0].data| - edits[0].deleteSize, k);
  }

  lemma GrowingShows(content: seq<Byte>, edits: seq<RangeEdit>, baseSize: nat, view: seq<Byte>, spliced: seq<Byte>,
                     out: seq<Byte>, k: nat)
    requires edits != [] && EditRun(edits, baseSize, view) && edits[0].start <= baseSize < edits[0].start + |edits[0].data|
    requires baseSize <= |content| && k <= |out| && k <= |spliced| && out[..k] == spliced[..k]
    requires k == edits[0].start + |edits[0].data| + if baseSize < |content| then 1 else 0
    requires Shows(spliced, edits[0].start + |edits[0].data|, content, [edits[0]], view)
    requires baseSize < |content| ==> spliced[k - 1] == content[baseSize]
    ensures Laid(out, content, edits, baseSize, view)
  {
    var end := edits[0].start + |edits[0].data|;
    assert edits == [edits[0]] + edits[1..];
    forall x | 0 <= x < k ensures out[x] == spliced[x] {
      assert out[..k][x] == spliced[..k][x];
    }
    forall x | 0 <= x < end ensures out[x] == if InEdits(edits, x) then At(view, x) else At(content, x) {
      InEditsConcat([edits[0]], edits[1..], x);
      TailEdits(edits, baseSize, view, x);
    }
  }

  lemma TailEdits(edits: seq<RangeEdit>, baseSize: nat, view: seq<Byte>, x: int)
    requires EditRun(edits, baseSize, view) && edits != [] && x < edits[0].start + |edits[0].data|
    ensures !InEdits(edits[1..], x)
  {
  }

  lemma BeforeEdits(edits: seq<RangeEdit>, baseSize: nat, view: seq<Byte>, n: nat)
    requires EditRun(edits, baseSize, view) && edits != [] && n <= edits[0].start
    ensures forall x :: x < n ==> !InEdits(edits, x)
  {
  }

  /** A batch leaves everything before its first edit alone. */
  lemma {:induction false} LaterEdits(content: seq<Byte>, edits: seq<RangeEdit>, shift: int, k: nat)
    requires Inside(edits, |content|, shift) && k <= |content|
    requires forall i :: 0 <= i < |edits| ==> k <= edits[i].start + shift
    ensures k <= |ApplyEdits(content, edits, shift)| && ApplyEdits(content, edits, shift)[..k] == content[..k]
    decreases |edits|
  {
    if edits != [] {
      var e := edits[0];
      var spliced := SpliceOne(content, e.start + shift, e);
      assert spliced[..k] == content[..k];
      LaterEdits(spliced, edits[1..], shift + |e.data| - e.deleteSize, k);
    }
  }

  lemma RunTail(edits: seq<RangeEdit>, baseSize: nat, size: nat, view: seq<Byte>)
    requires EditRun(edits, baseSize, view) && Inside(edits, size, 0) && edits != []
    ensures EditRun(edits[1..], baseSize, view) && Inside(edits[1..], size, 0)
    ensures edits[0].start + |edits[0].data| <= baseSize ==> edits[0].deleteSize == |edits[0].data|
  {
    assert EditOf(edits[0], baseSize, view);
  }

  /** One edit at its own offset: it deletes what it overwrites, so bytes after it stay put
      unless it runs past the old end. */
  lemma SpliceShows(content: seq<Byte>, e: RangeEdit, baseSize: nat, view: seq<Byte>)
    requires baseSize <= |content| && EditOf(e, baseSize, view) && e.start <= baseSize
    ensures e.deleteSize >= 0 && e.start + e.deleteSize <= baseSize
    ensures e.start + |e.data| <= baseSize ==> |SpliceOne(content, e.start, e)| == |content|
    ensures Shows(SpliceOne(content, e.start, e),
      if e.start + |e.data| <= baseSize then |content| else e.start + |e.data|, content, [e], view)
  {
    var spliced := SpliceOne(content, e.start, e);
    var n := if e.start + |e.data| <= baseSize then |content| else e.start + |e.data|;
    forall x | 0 <= x < n
      ensures spliced[x] == if InEdits([e], x) then At(view, x) else At(content, x)
    {
      InEditsOne(e, x);
    }
  }

  lemma ShowsCompose(content: seq<Byte>, e: RangeEdit, rest: seq<RangeEdit>, mid: seq<Byte>, out: seq<Byte>, n: int, view: seq<Byte>)
    requires |mid| == |content| && e.start + |e.data| <= |content|
    requires Shows(mid, |content|, content, [e], view) && Shows(out, n, mid, rest, view)
    ensures Shows(out, n, content, [e] + rest, view)
  {
    forall x | 0 <= x < n
      ensures out[x] == if InEdits([e] + rest, x) then At(view, x) else At(content, x)
    {
      InEditsConcat([e], rest, x);
      if x >= |mid| && InEdits([e], x) {
        InEditsOne(e, x);
      }
    }
  }

  lemma InEditsOne(e: RangeEdit, x: int)
    ensures InEdits([e], x) <==> e.start <= x < e.start + |e.data|
  {
    if e.start <= x < e.start + |e.data| {
      assert [e][0].start <= x;
    }
  }

  // ----- how far a batch is in place

  lemma {:induction false} InPlaceFits(edits: seq<RangeEdit>, baseSize: nat, view: seq<Byte>)
    requires EditRun(edits, baseSize, view) && edits != [] && StartsWithin(edits, baseSize)
    ensures InPlace(edits, baseSize) == Max(baseSize, edits[|edits| - 1].start + |edits[|edits| - 1].data|)
  {
    if |edits| > 1 {
      assert edits[0].start + |edits[0].data| <= edits[1].start;
      InPlaceFits(edits[1..], baseSize, view);
    }
  }

  /** An edit that starts past the old end is shown in the wrong place. */
  lemma {:induction false} InPlaceMisfits(edits: seq<RangeEdit>, baseSize: nat, view: seq<Byte>)
    requires EditRun(edits, baseSize, view) && !StartsWithin(edits, baseSize)
    ensures baseSize <= InPlace(edits, baseSize) < |view|
  {
    var i :| 0 <= i < |edits| && edits[i].start > baseSize;
    assert EditOf(edits[i], baseSize, view);
    if edits[0].start > baseSize {
    } else if edits[0].start + |edits[0].data| <= baseSize {
      assert edits[1..][i - 1] == edits[i];
      InPlaceMisfits(edits[1..], baseSize, view);
    } else {
      assert edits[0].start + |edits[0].data| <= edits[i].start;
    }
  }

  lemma {:induction false} InPlaceCovers(edits: seq<RangeEdit>, baseSize: nat)
    ensures baseSize <= InPlace(edits, baseSize)
  {
    if edits != [] {
      InPlaceCovers(edits[1..], baseSize);
    }
  }

  // ----- how much a batch adds

  lemma {:induction false} BatchLength(content: seq<Byte>, edits: seq<RangeEdit>, shift: int)
    requires Inside(edits, |content|, shift)
    ensures |ApplyEdits(content, edits, shift)| == |content| + Growth(edits)
    decreases |edits|
  {
    if edits != [] {
      var e := edits[0];
      BatchLength(SpliceOne(content, e.start + shift, e), edits[1..], shift + |e.data| - e.deleteSize);
    }
  }

  /** The dirty bytes past the old size. */
  function Grown(dirty: seq<ByteRange>, baseSize: nat): int {
    if dirty == [] then 0
    else
      var r := dirty[|dirty| - 1];
      Grown(dirty[..|dirty| - 1], baseSize) + Max(r.end, baseSize) - Max(r.start, baseSize)
  }

  lemma {:induction false} GrowthConcat(a: seq<RangeEdit>, b: seq<RangeEdit>)
    ensures Growth(a + b) == Growth(a) + Growth(b)
  {
    if a == [] {
      assert a + b == b;
    } else {
      GrowthConcat(a[1..], b);
      assert (a + b)[1..] == a[1..] + b;
    }
  }

  lemma {:induction false} PageGrowth(offset: nat, end: nat, page: nat, baseSize: nat, view: seq<Byte>)
    requires page > 0 && offset <= end <= |view|
    ensures Growth(PageEdits(offset, end, page, baseSize, view)) == Max(end, baseSize) - Max(offset, baseSize)
    decreases end - offset
  {
    if offset < end {
      var next := Min(offset + page, end);
      var head := RangeEdit(offset, DeleteSize(offset, next, baseSize), view[offset..next]);
      PageGrowth(next, end, page, baseSize, view);
      GrowthConcat([head], PageEdits(next, end, page, baseSize, view));
      assert [head][1..] == [] && Growth([head]) == next - offset - DeleteSize(offset, next, baseSize);
    }
  }

  /** A batch adds exactly the dirty bytes past the size it believes in. */
  lemma {:induction false} SpanGrowth(dirty: seq<ByteRange>, page: nat, baseSize: nat, view: seq<Byte>)
    requires page > 0 && NonEmpty(dirty) && Within(dirty, 0, |view|)
    ensures Growth(SpanEdits(dirty, page, baseSize, view)) == Grown(dirty, baseSize)
    decreases |dirty|
  {
    if dirty != [] {
      var n := |dirty| - 1;
      SpanGrowth(dirty[..n], page, baseSize, view);
      PageGrowth(dirty[n].start, dirty[n].end, page, baseSize, view);
      GrowthConcat(SpanEdits(dirty[..n], page, baseSize, view), PageEdits(dirty[n].start, dirty[n].end, page, baseSize, view));
    }
  }

  // ----- where less is stored than the batch believes

  /** A batch the hub takes although it holds less than the batch believes in grows nothing: it is
      as good as one made for what is stored. */
  lemma ShortRun(edits: seq<RangeEdit>, baseSize: nat, stored: nat, view: seq<Byte>)
    requires EditRun(edits, baseSize, view) && stored < baseSize && EndsWithin(edits, stored)
    ensures EditRun(edits, stored, view) && StartsWithin(edits, stored)
    ensures forall i :: 0 <= i < |edits| ==> edits[i].start + |edits[i].data| <= stored && edits[i].deleteSize == |edits[i].data|
  {
    forall i | 0 <= i < |edits|
      ensures edits[i].start + |edits[i].data| <= stored && edits[i].deleteSize == |edits[i].data| && EditOf(edits[i], stored, view)
    {
      assert EditOf(edits[i], baseSize, view);
    }
  }

  lemma {:induction false} NoGrowth(edits: seq<RangeEdit>, stored: nat)
    requires forall i :: 0 <= i < |edits| ==> edits[i].start + |edits[i].data| <= stored && edits[i].deleteSize == |edits[i].data|
    ensures Growth(edits) == 0 && InPlace(edits, stored) == stored
  {
    if edits != [] {
      NoGrowth(edits[1..], stored);
    }
  }

  // ----- what an accepted batch stores

  /** A batch the hub takes: its size, what it leaves alone, and how far it shows the content of the
      overlay. */
  lemma TakenBatch(content: seq<Byte>, dirty: seq<ByteRange>, page: nat, baseSize: nat, view: seq<Byte>)
    requires page > 0 && Canonical(dirty) && Within(dirty, 0, |view|) && PatchTaken(dirty, page, baseSize, |content|)
    ensures var edits := SpanEdits(dirty, page, baseSize, view);
      && BatchAccepted(edits, |content|)
      && |Patched(content, edits)| == |content| + (if |content| < baseSize then 0 else Grown(dirty, baseSize))
      && (forall x :: InEdits(edits, x) <==> Covers(dirty, x))
      && Laid(Patched(content, edits), content, edits, Min(baseSize, |content|), view)
  {
    var edits := SpanEdits(dirty, page, baseSize, view);
    PatchTakenIff(dirty, page, baseSize, |content|, view);
    SpanEditsShape(dirty, page, baseSize, view);
    AcceptedInside(edits, |content|);
    BatchLength(content, edits, 0);
    if |content| < baseSize {
      ShortRun(edits, baseSize, |content|, view);
      NoGrowth(edits, |content|);
      BatchLaid(content, edits, |content|, view);
    } else {
      SpanGrowth(dirty, page, baseSize, view);
      BatchLaid(content, edits, baseSize, view);
    }
  }

  lemma ShortInPlace(dirty: seq<ByteRange>, page: nat, baseSize: nat, stored: nat, view: seq<Byte>)
    requires page > 0 && Canonical(dirty) && Within(dirty, 0, |view|) && PatchTaken(dirty, page, baseSize, stored) && stored < baseSize
    ensures InPlace(SpanEdits(dirty, page, baseSize, view), stored) == stored
  {
    var edits := SpanEdits(dirty, page, baseSize, view);
    PatchTakenIff(dirty, page, baseSize, stored, view);
    SpanEditsShape(dirty, page, baseSize, view);
    ShortRun(edits, baseSize, stored, view);
    NoGrowth(edits, stored);
  }

  lemma FittingInPlace(dirty: seq<ByteRange>, page: nat, baseSize: nat, view: seq<Byte>)
    requires page > 0 && Canonical(dirty) && Within(dirty, 0, |view|) && dirty != [] && PatchFits(dirty, page, baseSize)
    ensures InPlace(SpanEdits(dirty, page, baseSize, view), baseSize) == Max(baseSize, dirty[|dirty| - 1].end)
  {
    SpanEditsShape(dirty, page, baseSize, view);
    SpanStarts(dirty, page, baseSize, view, baseSize);
    LastEditEnds(dirty, page, baseSize, view);
    InPlaceFits(SpanEdits(dirty, page, baseSize, view), baseSize, view);
  }

  lemma MisfitInPlace(dirty: seq<ByteRange>, page: nat, baseSize: nat, view: seq<Byte>)
    requires page > 0 && Canonical(dirty) && Within(dirty, 0, |view|) && !PatchFits(dirty, page, baseSize)
    ensures baseSize <= InPlace(SpanEdits(dirty, page, baseSize, view), baseSize) < |view|
  {
    SpanEditsShape(dirty, page, baseSize, view);
    SpanStarts(dirty, page, baseSize, view, baseSize);
    InPlaceMisfits(SpanEdits(dirty, page, baseSize, view), baseSize, view);
  }

  /** Bytes of the edits and untouched bytes together are the content shown. */
  lemma ShowsIsView(out: seq<Byte>, n: nat, content: seq<Byte>, edits: seq<RangeEdit>, dirty: seq<ByteRange>, view: seq<Byte>)
    requires Shows(out, n, content, edits, view)
    requires forall x :: InEdits(edits, x) <==> Covers(dirty, x)
    requires forall x :: 0 <= x < n && x < |view| && !Covers(dirty, x) ==> view[x] == At(content, x)
    requires |view| <= n || (n == |out| && forall x :: n <= x < |view| ==> view[x] == 0)
    ensures Resize(out, |view|) == view
  {
    forall x | 0 <= x < |view| ensures At(out, x) == view[x] {
      if x < n {
        assert out[x] == if InEdits(edits, x) then At(view, x) else At(content, x);
      }
    }
  }

  lemma CleanPastLast(rs: seq<ByteRange>, x: int)
    ensures Canonical(rs) && rs != [] && rs[|rs| - 1].end <= x ==> !Covers(rs, x)
  {
    if Canonical(rs) && rs != [] {
      forall k | 0 <= k < |rs| ensures rs[k].end <= rs[|rs| - 1].end {
        if k < |rs| - 1 {
          assert rs[k].end < rs[|rs| - 1].start;
        }
      }
    }
  }

  lemma LastEditEnds(dirty: seq<ByteRange>, page: nat, baseSize: nat, view: seq<Byte>)
    requires page > 0 && Canonical(dirty) && Within(dirty, 0, |view|) && dirty != []
    ensures var edits := SpanEdits(dirty, page, baseSize, view);
      edits != [] && edits[|edits| - 1].start + |edits[|edits| - 1].data| == dirty[|dirty| - 1].end
  {
    var r := dirty[|dirty| - 1];
    LastPageEditEnds(r.start, r.end, page, baseSize, view);
  }

  lemma {:induction false} LastPageEditEnds(offset: nat, end: nat, page: nat, baseSize: nat, view: seq<Byte>)
    requires page > 0 && offset < end <= |view|
    ensures var edits := PageEdits(offset, end, page, baseSize, view);
      edits != [] && edits[|edits| - 1].start + |edits[|edits| - 1].data| == end
    decreases end - offset
  {
    var next := Min(offset + page, end);
    if next < end {
      LastPageEditEnds(next, end, page, baseSize, view);
    }
  }

  /** Whatever the page, a growing span that starts inside the file or at its end is taken
      exactly when its last page starts there too. */
  lemma AppendFitsIff(start: nat, end: nat, page: nat, baseSize: nat)
    requires page > 0 && start <= baseSize < end
    ensures PatchTaken([ByteRange(start, end)], page, baseSize, baseSize) <==> end <= start + ((baseSize - start) / page + 1) * page
  {
    assert [ByteRange(start, end)][0] == ByteRange(start, end);
    FloorBounds(end - 1 - start, page);
    PageBound(end - 1 - start, baseSize - start, page);
  }

  lemma PageBound(x: nat, y: nat, page: nat)
    requires page > 0 && y <= x
    ensures x / page * page <= y <==> x < (y / page + 1) * page
  {
    FloorBounds(x, page);
    FloorBounds(y, page);
    DivMono(y, x, page);
    if y / page < x / page {
      assert (y / page + 1) * page <= x / page * page;
    }
  }
}
