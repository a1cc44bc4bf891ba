/** The commit ladder as a function: which rung is taken, what it sends to the hub, and exactly when
    the hub then stores the content the overlay shows, whatever it had stored before. */
module Publish {
  import opened FileBytes
  import opened Numbers
  import opened ByteRanges
  import opened HubFile
  import opened CommitPlan
  import opened PatchPlan

  datatype Rung = Nothing | TruncateRung | RewriteRung | ReplaceRung | PatchRung

  // ----- which rung

  function TotalBytes(rs: seq<ByteRange>): int {
    if rs == [] then 0 else TotalBytes(rs[..|rs| - 1]) + (rs[|rs| - 1].end - rs[|rs| - 1].start)
  }

  /** Patching range by range cannot pay: most of the file is dirty, or too fragmented. */
  predicate ShouldReplace(planned: seq<ByteRange>, dirty: seq<ByteRange>, baseSize: int, size: int) {
    var fileSize := Max(baseSize, size);
    var dirtyBytes := TotalBytes(dirty);
    && fileSize != 0
    && (|| dirtyBytes * 4 >= fileSize * 3
        || (|planned| >= 12 && dirtyBytes * 3 >= fileSize)
        || dirtyBytes * 2 >= fileSize)
  }

  /** Many planned ranges, or a few that cover less than half of the file. */
  predicate ShouldChunkRewrite(planned: seq<ByteRange>, baseSize: nat, size: nat) {
    || |planned| >= 4
    || (|planned| >= 2 && TotalBytes(planned) < Max(baseSize, size) / 2)
  }

  /** The ladder. */
  function PickRung(planned: seq<ByteRange>, dirty: seq<ByteRange>, baseSize: nat, size: nat): Rung {
    if dirty == [] then (if size == baseSize then Nothing else TruncateRung)
    else if ShouldChunkRewrite(planned, baseSize, size) then RewriteRung
    else if ShouldReplace(planned, dirty, baseSize, size) then ReplaceRung
    else PatchRung
  }

  /** One commit: what is dirty, the size the base is believed to have, the size of the file, and the
      plan and the rung that follow from them. */
  datatype Job = Job(rung: Rung, planned: seq<ByteRange>, dirty: seq<ByteRange>, baseSize: nat, size: nat, page: nat, chunk: nat)

  ghost predicate IsJob(j: Job) {
    && j.page > 0 && j.chunk > 0 && Canonical(j.dirty) && Within(j.dirty, 0, j.size)
    && IsPlan(j.planned, j.dirty, j.baseSize, j.chunk)
    && j.rung == PickRung(j.planned, j.dirty, j.baseSize, j.size)
  }

  /** The plan and the rung are determined by the rest. */
  lemma JobUnique(a: Job, b: Job)
    requires IsJob(a) && IsJob(b) && a.(rung := b.rung, planned := b.planned) == b
    ensures a == b
  {
    CanonicalFormUnique(a.planned, b.planned);
  }

  // ----- what is sent

  /** The clean bytes of the overlay are the stored ones below the base size, and holes past it. */
  ghost predicate Matches(j: Job, content: seq<Byte>, view: seq<Byte>) {
    forall x :: 0 <= x < |view| && !Covers(j.dirty, x) ==>
      if x < j.baseSize then x < |content| && view[x] == content[x] else view[x] == 0
  }

  /** The input of a chunk rewrite: the planned ranges over a file of holes. */
  function SnapshotOf(planned: seq<ByteRange>, view: seq<Byte>): (s: seq<Byte>)
    ensures |s| == |view| && forall x :: 0 <= x < |view| ==> s[x] == if Covers(planned, x) then view[x] else 0
  {
    seq(|view|, x requires 0 <= x < |view| => if Covers(planned, x) then view[x] else 0)
  }

  /** A patch sends its size after its batch, unless the size is that of the base or one appended
      span brings the file there. */
  predicate Reconciles(dirty: seq<ByteRange>, baseSize: nat, size: nat) {
    size != baseSize && !(|dirty| == 1 && dirty[0].start >= baseSize && size == dirty[0].end)
  }

  function SendBatch(content: seq<Byte>, edits: seq<RangeEdit>, reconcile: bool, size: nat, fates: seq<Fate>): Sent {
    var first := SendPatch(content, edits, fates);
    if first.ok && reconcile then SendTruncate(first.content, size, first.left) else first
  }

  /** What the hub stores after a commit, and whether the commit is told that it went through. */
  ghost function SendJob(j: Job, content: seq<Byte>, view: seq<Byte>, fates: seq<Fate>): Sent
    requires IsJob(j) && |view| == j.size
  {
    match j.rung
    case Nothing => Sent(content, true, fates)
    case TruncateRung => SendTruncate(content, j.size, fates)
    case RewriteRung => Send(content, Rewritten(content, SnapshotOf(j.planned, view), j.size, j.chunk, j.planned), fates)
    case ReplaceRung => Send(content, view, fates)
    case PatchRung =>
      SendBatch(content, SpanEdits(j.dirty, j.page, j.baseSize, view), Reconciles(j.dirty, j.baseSize, j.size), j.size, fates)
  }

  // ----- when that is right

  /** Told that it went through, a commit has stored the content shown; told otherwise, it has left
      the stored bytes under the clean ones as they were. */
  ghost predicate Published(j: Job, sent: Sent, view: seq<Byte>) {
    (sent.ok ==> sent.content == view) && Matches(j, sent.content, view)
  }

  /** A stored byte past the base size that a chunk rewrite keeps although the overlay shows a hole. */
  predicate ShowsThrough(j: Job, stored: nat)
    requires j.chunk > 0
  {
    exists x :: j.baseSize <= x < Min(stored, j.size) && !Covers(j.dirty, x) && !SegmentTouched(x, j.size, j.chunk, j.planned)
  }

  /** Whether a commit is right when `stored` bytes are stored. They are as many as the base is
      believed to have unless an earlier attempt went through unnoticed, or only in part. */
  predicate Right(j: Job, stored: nat)
    requires j.page > 0 && j.chunk > 0
  {
    match j.rung
    case Nothing => stored == j.size
    case TruncateRung => stored <= j.baseSize || j.size <= j.baseSize || j.size > stored + MAX_ZERO_EXTEND
    case RewriteRung => !TailLost(j.dirty, j.baseSize, j.size, j.chunk) && !ShowsThrough(j, stored)
    case ReplaceRung => true
    case PatchRung => PatchTaken(j.dirty, j.page, j.baseSize, stored) ==> stored <= j.baseSize || PatchRepeats(j, stored)
  }

  /** A batch for `baseSize` bytes that meets more: it must not show any of the surplus. */
  predicate PatchRepeats(j: Job, stored: nat)
    requires j.page > 0
  {
    && Reconciles(j.dirty, j.baseSize, j.size)
    && (|| j.size > stored + Grown(j.dirty, j.baseSize) + MAX_ZERO_EXTEND
        || (j.dirty != [] && PatchFits(j.dirty, j.page, j.baseSize) && j.size <= Max(j.baseSize, j.dirty[|j.dirty| - 1].end)))
  }

  /** As `Matches` asks, the clean bytes below the base size are stored. */
  ghost predicate CleanStored(j: Job, stored: nat) {
    forall x :: 0 <= x < j.baseSize && x < j.size && !Covers(j.dirty, x) ==> x < stored
  }

  // ----- right, so published

  lemma ViewMatches(j: Job, content: seq<Byte>, view: seq<Byte>)
    requires |view| == j.size && Matches(j, content, view)
    ensures Matches(j, view, view)
  {
  }

  lemma SentView(j: Job, content: seq<Byte>, view: seq<Byte>, fates: seq<Fate>)
    requires |view| == j.size && Matches(j, content, view)
    ensures Published(j, Send(content, view, fates), view)
  {
    ViewMatches(j, content, view);
  }

  lemma TruncatePublishes(j: Job, content: seq<Byte>, view: seq<Byte>, fates: seq<Fate>)
    requires IsJob(j) && j.rung == TruncateRung && |view| == j.size && Matches(j, content, view) && Right(j, |content|)
    ensures Published(j, SendJob(j, content, view, fates), view)
  {
    if j.size <= |content| + MAX_ZERO_EXTEND {
      forall x | 0 <= x < j.size ensures Resize(content, j.size)[x] == view[x] {
        assert !Covers(j.dirty, x);
      }
      assert Resize(content, j.size) == view;
      SentView(j, content, view, fates);
    }
  }

  /** A rewrite stores the byte shown, except a lost tail and what shows through. */
  lemma RewrittenAt(j: Job, content: seq<Byte>, view: seq<Byte>, x: nat)
    requires IsJob(j) && j.rung == RewriteRung && |view| == j.size && Matches(j, content, view) && Right(j, |content|) && x < j.size
    ensures Rewritten(content, SnapshotOf(j.planned, view), j.size, j.chunk, j.planned)[x] == view[x]
  {
    if Covers(j.dirty, x) {
      DirtyPlanned(j.planned, j.dirty, j.baseSize, j.chunk, x);
    }
    if Covers(j.planned, x) {
      PlannedTouched(j.planned, j.size, j.chunk, x);
    } else if SegmentTouched(x, j.size, j.chunk, j.planned) {
      if x < j.baseSize {
        TouchedUnplanned(j.planned, j.dirty, j.baseSize, j.size, j.chunk, x);
        assert false;
      }
    } else if j.baseSize <= x < |content| {
      assert false;
    }
  }

  lemma RewritePublishes(j: Job, content: seq<Byte>, view: seq<Byte>, fates: seq<Fate>)
    requires IsJob(j) && j.rung == RewriteRung && |view| == j.size && Matches(j, content, view) && Right(j, |content|)
    ensures Published(j, SendJob(j, content, view, fates), view)
  {
    var out := Rewritten(content, SnapshotOf(j.planned, view), j.size, j.chunk, j.planned);
    forall x | 0 <= x < j.size ensures out[x] == view[x] {
      RewrittenAt(j, content, view, x);
    }
    assert out == view;
    SentView(j, content, view, fates);
  }

  // ----- the patch

  /** The batch of a job, and the content once it is applied. */
  ghost function Batch(j: Job, view: seq<Byte>): seq<RangeEdit>
    requires IsJob(j) && |view| == j.size
  {
    SpanEdits(j.dirty, j.page, j.baseSize, view)
  }

  ghost function Landed(j: Job, content: seq<Byte>, view: seq<Byte>): seq<Byte>
    requires IsJob(j) && |view| == j.size && PatchTaken(j.dirty, j.page, j.baseSize, |content|)
  {
    PatchTakenIff(j.dirty, j.page, j.baseSize, |content|, view);
    Patched(content, Batch(j, view))
  }

  lemma LandedShows(j: Job, content: seq<Byte>, view: seq<Byte>)
    requires IsJob(j) && |view| == j.size && PatchTaken(j.dirty, j.page, j.baseSize, |content|)
    ensures |Landed(j, content, view)| == |content| + if |content| < j.baseSize then 0 else Grown(j.dirty, j.baseSize)
    ensures forall x :: InEdits(Batch(j, view), x) <==> Covers(j.dirty, x)
    ensures Laid(Landed(j, content, view), content, Batch(j, view), Min(j.baseSize, |content|), view)
  {
    TakenBatch(content, j.dirty, j.page, j.baseSize, view);
  }

  lemma {:induction false} GrownNonNegative(dirty: seq<ByteRange>, baseSize: nat)
    requires NonEmpty(dirty)
    ensures Grown(dirty, baseSize) >= 0
  {
    if dirty != [] {
      GrownNonNegative(dirty[..|dirty| - 1], baseSize);
    }
  }

  /** A batch that lands leaves the clean stored bytes as they were. */
  lemma LandedMatches(j: Job, content: seq<Byte>, view: seq<Byte>)
    requires IsJob(j) && |view| == j.size && Matches(j, content, view) && PatchTaken(j.dirty, j.page, j.baseSize, |content|)
    ensures Matches(j, Landed(j, content, view), view)
  {
    LandedShows(j, content, view);
    InPlaceCovers(Batch(j, view), Min(j.baseSize, |content|));
    var out := Landed(j, content, view);
    forall x | 0 <= x < |view| && !Covers(j.dirty, x) && x < j.baseSize ensures x < |out| && out[x] == view[x] {
      assert !InEdits(Batch(j, view), x);
    }
  }

  lemma ResizeMatches(j: Job, content: seq<Byte>, view: seq<Byte>)
    requires |view| == j.size && Matches(j, content, view)
    ensures Matches(j, Resize(content, j.size), view)
  {
  }

  /** With no more stored than believed, a batch that lands is the content shown but for its size. */
  lemma LandedIsView(j: Job, content: seq<Byte>, view: seq<Byte>)
    requires IsJob(j) && j.rung == PatchRung && |view| == j.size && Matches(j, content, view)
    requires PatchTaken(j.dirty, j.page, j.baseSize, |content|) && |content| <= j.baseSize
    ensures Resize(Landed(j, content, view), j.size) == view
    ensures !Reconciles(j.dirty, j.baseSize, j.size) ==> |Landed(j, content, view)| == j.size
  {
    LandedShows(j, content, view);
    var out, edits := Landed(j, content, view), Batch(j, view);
    LandedInPlace(j, |content|, view);
    forall x | |out| <= x < |view| ensures view[x] == 0 {
      PastLanded(j, content, view, x);
    }
    forall x | 0 <= x < |out| && x < |view| && !Covers(j.dirty, x) ensures view[x] == At(content, x) {
    }
    ShowsIsView(out, |out|, content, edits, j.dirty, view);
    if !Reconciles(j.dirty, j.baseSize, j.size) {
      UnreconciledSize(j, content, view);
    }
  }

  /** In that case the whole of the outcome is in place. */
  lemma LandedInPlace(j: Job, stored: nat, view: seq<Byte>)
    requires IsJob(j) && |view| == j.size && PatchTaken(j.dirty, j.page, j.baseSize, stored) && stored <= j.baseSize
    ensures InPlace(Batch(j, view), stored) == stored + if stored < j.baseSize then 0 else Grown(j.dirty, j.baseSize)
    ensures stored == j.baseSize ==> stored + Grown(j.dirty, j.baseSize) == Max(stored, j.dirty[|j.dirty| - 1].end)
  {
    if stored < j.baseSize {
      ShortInPlace(j.dirty, j.page, j.baseSize, stored, view);
    } else {
      FittingInPlace(j.dirty, j.page, j.baseSize, view);
      FittingGrowth(j.dirty, j.page, j.baseSize);
    }
  }

  lemma PastLanded(j: Job, content: seq<Byte>, view: seq<Byte>, x: nat)
    requires IsJob(j) && |view| == j.size && Matches(j, content, view) && PatchTaken(j.dirty, j.page, j.baseSize, |content|)
    requires |content| <= j.baseSize && |content| <= x < j.size && j.dirty[|j.dirty| - 1].end <= x
    ensures view[x] == 0
  {
    CleanPastLast(j.dirty, x);
  }

  /** Where the size is not sent, it comes out right. */
  lemma UnreconciledSize(j: Job, content: seq<Byte>, view: seq<Byte>)
    requires IsJob(j) && |view| == j.size && Matches(j, content, view) && !Reconciles(j.dirty, j.baseSize, j.size)
    requires PatchTaken(j.dirty, j.page, j.baseSize, |content|) && |content| <= j.baseSize
    ensures |content| == j.baseSize && Max(j.baseSize, j.dirty[|j.dirty| - 1].end) == j.size
  {
    if |content| < j.baseSize {
      CleanPastLast(j.dirty, j.size - 1);
      assert false;
    }
  }

  /** A batch that fits grows the file by one stretch, from the old end to the end of its last span. */
  lemma FittingGrowth(dirty: seq<ByteRange>, page: nat, baseSize: nat)
    requires page > 0 && Canonical(dirty) && dirty != [] && PatchFits(dirty, page, baseSize)
    ensures baseSize + Grown(dirty, baseSize) == Max(baseSize, dirty[|dirty| - 1].end)
    ensures forall x :: baseSize <= x < dirty[|dirty| - 1].end ==> Covers(dirty, x)
  {
    var n := |dirty| - 1;
    var r := dirty[n];
    LastPageStep(r.start, r.end, page);
    assert r.start <= baseSize;
    forall k | 0 <= k < n ensures dirty[..n][k].end <= baseSize {
      assert dirty[k].end < r.start;
    }
    NothingGrown(dirty[..n], baseSize);
    forall x | baseSize <= x < r.end ensures Covers(dirty, x) {
      assert InRange(dirty[n], x);
    }
  }

  lemma {:induction false} NothingGrown(dirty: seq<ByteRange>, baseSize: nat)
    requires forall k :: 0 <= k < |dirty| ==> dirty[k].start <= dirty[k].end <= baseSize
    ensures Grown(dirty, baseSize) == 0
  {
    if dirty != [] {
      NothingGrown(dirty[..|dirty| - 1], baseSize);
    }
  }

  /** A batch repeated over its own outcome, or met by other surplus, in the family in which none of
      the surplus is shown. */
  lemma RepeatedIsView(j: Job, content: seq<Byte>, view: seq<Byte>)
    requires IsJob(j) && j.rung == PatchRung && |view| == j.size && Matches(j, content, view) && j.baseSize < |content|
    requires PatchFits(j.dirty, j.page, j.baseSize) && j.size <= Max(j.baseSize, j.dirty[|j.dirty| - 1].end)
    requires PatchTaken(j.dirty, j.page, j.baseSize, |content|)
    ensures j.size <= |Landed(j, content, view)| && Resize(Landed(j, content, view), j.size) == view
  {
    var n := Max(j.baseSize, j.dirty[|j.dirty| - 1].end);
    LandedShows(j, content, view);
    FittingInPlace(j.dirty, j.page, j.baseSize, view);
    FittingGrowth(j.dirty, j.page, j.baseSize);
    ShowsIsView(Landed(j, content, view), n, content, Batch(j, view), j.dirty, view);
  }

  lemma PatchPublishes(j: Job, content: seq<Byte>, view: seq<Byte>, fates: seq<Fate>)
    requires IsJob(j) && j.rung == PatchRung && |view| == j.size && Matches(j, content, view) && Right(j, |content|)
    ensures Published(j, SendJob(j, content, view, fates), view)
  {
    PatchTakenIff(j.dirty, j.page, j.baseSize, |content|, view);
    if PatchTaken(j.dirty, j.page, j.baseSize, |content|) {
      var out := Landed(j, content, view);
      LandedMatches(j, content, view);
      ResizeMatches(j, out, view);
      LandedShows(j, content, view);
      if |content| <= j.baseSize {
        LandedIsView(j, content, view);
        assert !Reconciles(j.dirty, j.baseSize, j.size) ==> out == Resize(out, j.size);
      } else if j.size <= |out| + MAX_ZERO_EXTEND {
        RepeatedIsView(j, content, view);
      }
    }
  }

  /** In the states that are right, whatever becomes of the requests, a commit that is told it went
      through has stored the content shown, and one that is not can be tried again. */
  lemma RightPublishes(j: Job, content: seq<Byte>, view: seq<Byte>, fates: seq<Fate>)
    requires IsJob(j) && |view| == j.size && Matches(j, content, view) && Right(j, |content|)
    ensures Published(j, SendJob(j, content, view, fates), view)
  {
    match j.rung
    case Nothing =>
      assert content == view;
    case TruncateRung => TruncatePublishes(j, content, view, fates);
    case RewriteRung => RewritePublishes(j, content, view, fates);
    case ReplaceRung => SentView(j, content, view, fates);
    case PatchRung => PatchPublishes(j, content, view, fates);
  }

  // ----- not right, so not published

  /** Stored bytes that are 1 from the base size on, under an overlay that shows zeros. */
  function Surplus(j: Job, stored: nat): (content: seq<Byte>)
    ensures |content| == stored && forall x :: 0 <= x < stored ==> content[x] == if x < j.baseSize then 0 else 1
  {
    seq(stored, x requires 0 <= x < stored => if x < j.baseSize then 0 else 1)
  }

  /** Ones stored throughout, and shown where the overlay leaves them to the base. */
  function Ones(j: Job): (view: seq<Byte>)
    ensures |view| == j.size && forall x :: 0 <= x < j.size ==> view[x] == if x < j.baseSize then 1 else 0
  {
    seq(j.size, x requires 0 <= x < j.size => if x < j.baseSize then 1 else 0)
  }

  lemma SurplusMatches(j: Job, stored: nat)
    requires CleanStored(j, stored)
    ensures Matches(j, Surplus(j, stored), Zeros(j.size))
  {
  }

  lemma TruncateWrong(j: Job, stored: nat)
    requires IsJob(j) && j.rung == TruncateRung && !Right(j, stored)
    ensures !Published(j, SendJob(j, Surplus(j, stored), Zeros(j.size), []), Zeros(j.size))
  {
    var out := Resize(Surplus(j, stored), j.size);
    assert out[j.baseSize] == 1 != Zeros(j.size)[j.baseSize];
  }

  lemma TailWrong(j: Job, stored: nat) returns (content: seq<Byte>, view: seq<Byte>)
    requires IsJob(j) && j.rung == RewriteRung && CleanStored(j, stored) && TailLost(j.dirty, j.baseSize, j.size, j.chunk)
    ensures |content| == stored && |view| == j.size && Matches(j, content, view)
    ensures !Published(j, SendJob(j, content, view, []), view)
  {
    content, view := seq(stored, _ => 1), Ones(j);
    var lo := j.baseSize / j.chunk * j.chunk;
    FloorBounds(j.baseSize, j.chunk);
    LostTailTouched(j.planned, j.dirty, j.baseSize, j.size, j.chunk, lo);
    var out := Rewritten(content, SnapshotOf(j.planned, view), j.size, j.chunk, j.planned);
    assert out[lo] == 0 != view[lo];
  }

  lemma ThroughWrong(j: Job, stored: nat)
    requires IsJob(j) && j.rung == RewriteRung && ShowsThrough(j, stored)
    ensures !Published(j, SendJob(j, Surplus(j, stored), Zeros(j.size), []), Zeros(j.size))
  {
    var x :| j.baseSize <= x < Min(stored, j.size) && !Covers(j.dirty, x) && !SegmentTouched(x, j.size, j.chunk, j.planned);
    var view, content := Zeros(j.size), Surplus(j, stored);
    var out := Rewritten(content, SnapshotOf(j.planned, view), j.size, j.chunk, j.planned);
    assert out[x] == 1 != view[x];
  }

  /** The first surplus byte ends up where the overlay shows something else. */
  lemma PatchWrong(j: Job, stored: nat)
    requires IsJob(j) && j.rung == PatchRung && !Right(j, stored)
    ensures !Published(j, SendJob(j, Surplus(j, stored), Zeros(j.size), []), Zeros(j.size))
  {
    var view, content := Zeros(j.size), Surplus(j, stored);
    var out, at := Landed(j, content, view), InPlace(Batch(j, view), j.baseSize);
    PatchTakenIff(j.dirty, j.page, j.baseSize, stored, view);
    LandedShows(j, content, view);
    InPlaceCovers(Batch(j, view), j.baseSize);
    assert out[at] == 1;
    if Reconciles(j.dirty, j.baseSize, j.size) {
      if PatchFits(j.dirty, j.page, j.baseSize) {
        FittingInPlace(j.dirty, j.page, j.baseSize, view);
      } else {
        MisfitInPlace(j.dirty, j.page, j.baseSize, view);
      }
      assert Resize(out, j.size)[at] == 1 != view[at];
    } else if |out| == j.size {
      assert out[at] != view[at];
    }
  }

  /** In every other state some content is published wrong, though every request is confirmed. */
  lemma WrongContent(j: Job, stored: nat) returns (content: seq<Byte>, view: seq<Byte>)
    requires IsJob(j) && CleanStored(j, stored) && !Right(j, stored)
    ensures |content| == stored && |view| == j.size && Matches(j, content, view)
    ensures !Published(j, SendJob(j, content, view, []), view)
  {
    content, view := Surplus(j, stored), Zeros(j.size);
    SurplusMatches(j, stored);
    match j.rung
    case Nothing =>
    case TruncateRung => TruncateWrong(j, stored);
    case RewriteRung =>
      if TailLost(j.dirty, j.baseSize, j.size, j.chunk) {
        content, view := TailWrong(j, stored);
      } else {
        ThroughWrong(j, stored);
      }
    case PatchRung => PatchWrong(j, stored);
  }

  /** A commit publishes every content, whatever becomes of its requests, exactly in the states that
      are right. */
  lemma RightIff(j: Job, stored: nat)
    requires IsJob(j) && CleanStored(j, stored)
    ensures (forall content, view, fates | |content| == stored && |view| == j.size && Matches(j, content, view) ::
        Published(j, SendJob(j, content, view, fates), view))
      <==> Right(j, stored)
  {
    if Right(j, stored) {
      forall content, view, fates | |content| == stored && |view| == j.size && Matches(j, content, view)
        ensures Published(j, SendJob(j, content, view, fates), view)
      {
        RightPublishes(j, content, view, fates);
      }
    } else {
      var content, view := WrongContent(j, stored);
    }
  }

  /** A chunk rewrite stores every content shown exactly when no tail is lost. */
  lemma RewriteFaithfulIff(j: Job)
    requires IsJob(j) && j.rung == RewriteRung && CleanStored(j, j.baseSize)
    ensures (forall content, view | |content| == j.baseSize && |view| == j.size && Matches(j, content, view) ::
        Rewritten(content, SnapshotOf(j.planned, view), j.size, j.chunk, j.planned) == view)
      <==> !TailLost(j.dirty, j.baseSize, j.size, j.chunk)
  {
    if TailLost(j.dirty, j.baseSize, j.size, j.chunk) {
      var content, view := TailWrong(j, j.baseSize);
      ViewMatches(j, content, view);
    } else {
      forall content, view | |content| == j.baseSize && |view| == j.size && Matches(j, content, view)
        ensures Rewritten(content, SnapshotOf(j.planned, view), j.size, j.chunk, j.planned) == view
      {
        forall x | 0 <= x < j.size
          ensures Rewritten(content, SnapshotOf(j.planned, view), j.size, j.chunk, j.planned)[x] == view[x]
        {
          RewrittenAt(j, content, view, x);
        }
      }
    }
  }

  /** With exactly the base stored, only a lost tail can go wrong. */
  lemma RightInSync(j: Job)
    requires IsJob(j)
    ensures Right(j, j.baseSize) <==> (j.rung == RewriteRung ==> !TailLost(j.dirty, j.baseSize, j.size, j.chunk))
  {
  }

  // ----- sending a batch again

  ghost predicate RepeatRight(j: Job, content: seq<Byte>, view: seq<Byte>)
    requires IsJob(j) && |view| == j.size && j.rung == PatchRung && |content| == j.baseSize
    requires PatchTaken(j.dirty, j.page, j.baseSize, j.baseSize)
  {
    var again := SendJob(j, Landed(j, content, view), view, []);
    again.ok ==> again.content == view
  }

  /** The batch does not grow the file, or the size is sent again and cuts off what the repeated batch
      adds, or is too large to be sent at all. */
  predicate RepeatSafe(j: Job)
    requires j.dirty != []
  {
    var end := j.dirty[|j.dirty| - 1].end;
    || end <= j.baseSize
    || (Reconciles(j.dirty, j.baseSize, j.size) && (j.size == end || j.size > end + (end - j.baseSize) + MAX_ZERO_EXTEND))
  }

  /** The batch has landed and the commit has failed behind it; the retry sends it again. That is
      right for every content exactly when the job is safe to repeat. */
  lemma PatchReplayIff(j: Job)
    requires IsJob(j) && j.rung == PatchRung && PatchTaken(j.dirty, j.page, j.baseSize, j.baseSize)
    ensures (forall content, view | |content| == j.baseSize && |view| == j.size && Matches(j, content, view) ::
        RepeatRight(j, content, view))
      <==> RepeatSafe(j)
  {
    FittingGrowth(j.dirty, j.page, j.baseSize);
    if RepeatSafe(j) {
      forall content, view | |content| == j.baseSize && |view| == j.size && Matches(j, content, view)
        ensures RepeatRight(j, content, view)
      {
        LandedShows(j, content, view);
        LandedMatches(j, content, view);
        RightPublishes(j, Landed(j, content, view), view, []);
      }
    } else {
      ReplayWrong(j);
    }
  }

  /** What the batch grew is 1, and everything else 0. */
  function GrownOnes(j: Job): (view: seq<Byte>)
    requires j.dirty != []
    ensures |view| == j.size && forall x :: 0 <= x < j.size ==> view[x] == if j.baseSize <= x < j.dirty[|j.dirty| - 1].end then 1 else 0
  {
    seq(j.size, x requires 0 <= x < j.size => if j.baseSize <= x < j.dirty[|j.dirty| - 1].end then 1 else 0)
  }

  lemma ReplayWrong(j: Job)
    requires IsJob(j) && j.rung == PatchRung && PatchTaken(j.dirty, j.page, j.baseSize, j.baseSize) && !RepeatSafe(j)
    ensures Matches(j, Zeros(j.baseSize), GrownOnes(j)) && !RepeatRight(j, Zeros(j.baseSize), GrownOnes(j))
  {
    var end, content, view := j.dirty[|j.dirty| - 1].end, Zeros(j.baseSize), GrownOnes(j);
    FirstLanding(j);
    SecondLanding(j, Landed(j, content, view), view);
    var again := Landed(j, Landed(j, content, view), view);
    if Reconciles(j.dirty, j.baseSize, j.size) {
      assert Resize(again, j.size)[end] == 1 != view[end];
    }
  }

  lemma FirstLanding(j: Job)
    requires IsJob(j) && j.rung == PatchRung && PatchTaken(j.dirty, j.page, j.baseSize, j.baseSize)
    requires j.baseSize < j.dirty[|j.dirty| - 1].end
    ensures Matches(j, Zeros(j.baseSize), GrownOnes(j))
    ensures var landed := Landed(j, Zeros(j.baseSize), GrownOnes(j));
      |landed| == j.dirty[|j.dirty| - 1].end && landed[j.baseSize] == 1 && PatchTaken(j.dirty, j.page, j.baseSize, |landed|)
  {
    FittingGrowth(j.dirty, j.page, j.baseSize);
    LandedShows(j, Zeros(j.baseSize), GrownOnes(j));
    FittingInPlace(j.dirty, j.page, j.baseSize, GrownOnes(j));
    FitsLonger(j.dirty, j.page, j.baseSize, j.dirty[|j.dirty| - 1].end);
  }

  /** The repeated batch adds its growth once more, and the first grown byte appears behind it. */
  lemma SecondLanding(j: Job, landed: seq<Byte>, view: seq<Byte>)
    requires IsJob(j) && PatchTaken(j.dirty, j.page, j.baseSize, j.baseSize) && |view| == j.size
    requires j.baseSize < j.dirty[|j.dirty| - 1].end == |landed| && PatchTaken(j.dirty, j.page, j.baseSize, |landed|)
    ensures var again, end := Landed(j, landed, view), j.dirty[|j.dirty| - 1].end;
      |again| == end + (end - j.baseSize) && again[end] == landed[j.baseSize]
    ensures BatchAccepted(Batch(j, view), |landed|)
  {
    FittingGrowth(j.dirty, j.page, j.baseSize);
    PatchTakenIff(j.dirty, j.page, j.baseSize, |landed|, view);
    LandedShows(j, landed, view);
    FittingInPlace(j.dirty, j.page, j.baseSize, view);
  }

  lemma FitsLonger(dirty: seq<ByteRange>, page: nat, baseSize: nat, stored: nat)
    requires page > 0 && PatchFits(dirty, page, baseSize) && baseSize <= stored
    ensures PatchFits(dirty, page, stored)
  {
  }
}
