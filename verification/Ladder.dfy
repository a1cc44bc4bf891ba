/** The commit ladder in terms of bytes: what is planned, which rung is taken, and what becomes of a
    commit when nothing interferes with its requests. */
module Ladder {
  import opened Options
  import opened Errnos
  import opened FileBytes
  import opened Numbers
  import opened ByteRanges
  import opened HubFile
  import opened Overlay
  import opened CommitPlan
  import opened PatchPlan
  import opened Publish
  import opened Commit

  // ----- counting bytes

  /** The offsets below `n` that the spans cover. */
  function Covered(rs: seq<ByteRange>, n: nat): set<int> {
    set x | 0 <= x < n && Covers(rs, x)
  }

  function Offsets(r: ByteRange): set<int> {
    set x | r.start <= x < r.end && InRange(r, x)
  }

  lemma {:induction false} OffsetsSize(r: ByteRange)
    requires r.start <= r.end
    ensures |Offsets(r)| == r.end - r.start
    decreases r.end - r.start
  {
    if r.start < r.end {
      OffsetsSize(ByteRange(r.start, r.end - 1));
      assert Offsets(r) == Offsets(ByteRange(r.start, r.end - 1)) + {r.end - 1};
    } else {
      assert Offsets(r) == {};
    }
  }

  lemma LastApart(rs: seq<ByteRange>, n: nat)
    requires Canonical(rs) && Within(rs, 0, n) && rs != []
    ensures var k := |rs| - 1;
      Covered(rs, n) == Covered(rs[..k], n) + Offsets(rs[k]) && Covered(rs[..k], n) !! Offsets(rs[k])
  {
    var k := |rs| - 1;
    CoversGrow(rs, k);
    assert rs[..k + 1] == rs;
    forall x | Covers(rs[..k], x) ensures !InRange(rs[k], x) {
      var i :| 0 <= i < k && InRange(rs[i], x);
      assert rs[i].end < rs[k].start;
    }
  }

  /** The length of a merged list is the number of offsets it covers. */
  lemma {:induction false} TotalIsCovered(rs: seq<ByteRange>, n: nat)
    requires Canonical(rs) && Within(rs, 0, n)
    ensures TotalBytes(rs) == |Covered(rs, n)|
    decreases |rs|
  {
    if rs == [] {
      assert Covered(rs, n) == {};
    } else {
      var k := |rs| - 1;
      TotalIsCovered(rs[..k], n);
      OffsetsSize(rs[k]);
      LastApart(rs, n);
    }
  }

  // ----- what is planned

  /** The plan of a rewrite takes along the dirty bytes, and of the old content the bytes that share
      a chunk with a dirty byte of the old content. */
  lemma PlannedIff(planned: seq<ByteRange>, dirty: seq<ByteRange>, baseSize: nat, chunkSize: nat, x: nat)
    requires chunkSize > 0 && IsPlan(planned, dirty, baseSize, chunkSize)
    ensures Covers(planned, x) <==>
      || Covers(dirty, x)
      || (x < baseSize && exists d :: 0 <= d < baseSize && d / chunkSize == x / chunkSize && Covers(dirty, d))
  {
    if Covers(dirty, x) {
      DirtyPlanned(planned, dirty, baseSize, chunkSize, x);
    } else if Covers(planned, x) {
      PlannedClean(dirty, baseSize, chunkSize, x);
    } else if x < baseSize {
      forall d | 0 <= d < baseSize && d / chunkSize == x / chunkSize ensures !Covers(dirty, d) {
        if Covers(dirty, d) {
          SegmentPlanned(dirty, baseSize, chunkSize, d, x);
          assert false;
        }
      }
    }
  }

  lemma PlannedWithin(j: Job)
    requires IsJob(j)
    ensures Within(j.planned, 0, Max(j.baseSize, j.size))
  {
    PlannedNonNegative(j.planned, j.dirty, j.baseSize, j.chunk);
    CoverWithin(j.dirty, 0, j.size);
    forall k | 0 <= k < |j.planned| ensures j.planned[k].end <= Max(j.baseSize, j.size) {
      var last := j.planned[k].end - 1;
      assert InRange(j.planned[k], last);
      PlannedIff(j.planned, j.dirty, j.baseSize, j.chunk, last);
    }
  }

  lemma NothingPlanned(j: Job)
    requires IsJob(j)
    ensures j.dirty == [] <==> j.planned == []
  {
    if j.dirty != [] {
      HeadCovered(j.dirty);
      DirtyPlanned(j.planned, j.dirty, j.baseSize, j.chunk, j.dirty[0].start);
    } else {
      HeadCovered(j.planned);
    }
  }

  // ----- which rung

  /** The file is rebuilt chunk by chunk when the plan is in four pieces or more, or in two or three
      that hold less than half of the file. */
  ghost predicate InPieces(j: Job) {
    var size := Max(j.baseSize, j.size);
    |j.planned| >= 4 || (|j.planned| >= 2 && 2 * |Covered(j.planned, size)| + 2 <= size)
  }

  /** The rung a commit takes: by how many bytes are dirty, and in how many pieces the plan is. */
  lemma RungIs(j: Job)
    requires IsJob(j)
    ensures var dirty, size := |Covered(j.dirty, j.size)|, Max(j.baseSize, j.size);
      && (j.rung == Nothing <==> dirty == 0 && j.size == j.baseSize)
      && (j.rung == TruncateRung <==> dirty == 0 && j.size != j.baseSize)
      && (j.rung == RewriteRung <==> InPieces(j))
      && (j.rung == ReplaceRung <==> dirty > 0 && !InPieces(j) && 2 * dirty >= size)
      && (j.rung == PatchRung <==> !InPieces(j) && 0 < 2 * dirty < size)
  {
    TotalIsCovered(j.dirty, j.size);
    PlannedWithin(j);
    TotalIsCovered(j.planned, Max(j.baseSize, j.size));
    NothingPlanned(j);
    if j.dirty != [] {
      HeadCovered(j.dirty);
      CoverWithin(j.dirty, 0, j.size);
      assert j.dirty[0].start in Covered(j.dirty, j.size);
    } else {
      assert Covered(j.dirty, j.size) == {};
    }
  }

  // ----- a commit that nothing interferes with

  /** No page of the batch starts past the stored bytes, and the size is at most 16 MiB past the
      content once the batch is in. */
  predicate PatchGoes(dirty: seq<ByteRange>, page: nat, stored: nat, size: nat)
    requires page > 0 && NonEmpty(dirty) && dirty != []
  {
    && (forall k :: 0 <= k < |dirty| ==> dirty[k].start + (dirty[k].end - 1 - dirty[k].start) / page * page <= stored)
    && (size != stored ==> size <= Max(stored, dirty[|dirty| - 1].end) + 16 * 1024 * 1024)
  }

  /** Whether a commit over exactly the base goes through when every request is confirmed. */
  predicate GoesThrough(j: Job)
    requires j.page > 0 && NonEmpty(j.dirty)
  {
    match j.rung
    case TruncateRung => j.size <= j.baseSize + 16 * 1024 * 1024
    case PatchRung => j.dirty != [] && PatchGoes(j.dirty, j.page, j.baseSize, j.size)
    case _ => true
  }

  /** With every request confirmed a commit is told so exactly where it goes through, and has then
      stored the content shown; elsewhere it has stored nothing but a batch without its size. */
  lemma ConfirmedIff(j: Job, content: seq<Byte>, view: seq<Byte>)
    requires IsJob(j) && |view| == j.size && |content| == j.baseSize && Matches(j, content, view)
    requires j.rung == RewriteRung ==> !TailLost(j.dirty, j.baseSize, j.size, j.chunk)
    ensures SendJob(j, content, view, []).ok <==> GoesThrough(j)
    ensures GoesThrough(j) ==> SendJob(j, content, view, []).content == view
  {
    RightInSync(j);
    RightPublishes(j, content, view, []);
    if j.rung == PatchRung {
      PatchConfirmedIff(j, content, view);
    }
  }

  lemma PatchConfirmedIff(j: Job, content: seq<Byte>, view: seq<Byte>)
    requires IsJob(j) && j.rung == PatchRung && |view| == j.size && |content| == j.baseSize && Matches(j, content, view)
    ensures SendJob(j, content, view, []).ok <==> PatchGoes(j.dirty, j.page, j.baseSize, j.size)
  {
    PatchTakenIff(j.dirty, j.page, j.baseSize, |content|, view);
    FitsIff(j.dirty, j.page, j.baseSize);
    if PatchTaken(j.dirty, j.page, j.baseSize, |content|) {
      LandedShows(j, content, view);
      FittingGrowth(j.dirty, j.page, j.baseSize);
    }
  }

  lemma FitsIff(dirty: seq<ByteRange>, page: nat, stored: nat)
    requires page > 0 && NonEmpty(dirty)
    ensures PatchFits(dirty, page, stored) <==>
      forall k :: 0 <= k < |dirty| ==> dirty[k].start + (dirty[k].end - 1 - dirty[k].start) / page * page <= stored
  {
    if PatchFits(dirty, page, stored) {
      forall k | 0 <= k < |dirty| ensures dirty[k].start + (dirty[k].end - 1 - dirty[k].start) / page * page <= stored {
        assert LastPage(dirty[k].start, dirty[k].end, page) <= stored;
      }
    } else {
      var k :| 0 <= k < |dirty| && LastPage(dirty[k].start, dirty[k].end, page) > stored;
      assert dirty[k].start + (dirty[k].end - 1 - dirty[k].start) / page * page > stored;
    }
  }

  /** An open file over a hub that answers and stores exactly the base, with a clean record. */
  ghost predicate Quiet(h: Handle)
    reads h.ws, h.ws.hub
  {
    && h.ws.Valid() && h.ws.Honest() && h.InTouch() && !h.ws.poisoned
    && h.ws.hub.reliable && h.ws.hub.fates == [] && |h.ws.hub.content| == h.ws.baseSize
  }

  /** Such a file is published by one commit exactly where the commit goes through. */
  method CommitQuietly(h: Handle) returns (planned: seq<ByteRange>, err: Errno)
    requires Quiet(h) && !TailLost(h.ws.dirtyRanges, h.ws.baseSize, h.ws.logicalSize, h.ws.chunkSize)
    modifies h.ws, h.ws.hub
    ensures h.ws.Valid()
    ensures old(IsJob(h.JobOf(planned)))
    ensures err == OK <==> old(GoesThrough(h.JobOf(planned)))
    ensures err == OK ==> h.ws.hub.content == old(h.ws.View())
    ensures h.ws.View() == old(h.ws.View()) || (err == OK && old(h.ws.baseTemp).Some? && old(h.JobOf(planned)).rung == PatchRung)
  {
    ghost var content, view := h.ws.hub.content, h.ws.View();
    h.InTouchMatches();
    planned, err := h.Commit();
    ghost var j := old(h.JobOf(planned));
    ConfirmedIff(j, content, view);
    RightInSync(j);
  }

  /** A file at least half of which is dirty, by a plan in one piece, is published by one commit:
      a new file above all. */
  method CommitMostlyDirty(h: Handle) returns (err: Errno)
    requires Quiet(h) && h.ws.dirtyRanges != []
    requires 2 * |Covered(h.ws.dirtyRanges, h.ws.logicalSize)| >= Max(h.ws.baseSize, h.ws.logicalSize)
    requires forall planned :: IsPlan(planned, h.ws.dirtyRanges, h.ws.baseSize, h.ws.chunkSize) ==> |planned| <= 1
    modifies h.ws, h.ws.hub
    ensures h.ws.Valid() && err == OK && h.ws.hub.content == h.ws.View() == old(h.ws.View())
  {
    ghost var content, view := h.ws.hub.content, h.ws.View();
    h.InTouchMatches();
    var planned;
    planned, err := h.Commit();
    ghost var j := old(h.JobOf(planned));
    RungIs(j);
    ConfirmedIff(j, content, view);
    RightInSync(j);
  }

  /** A new file that was written from start to end is published by one commit, whatever its size. */
  method CommitNewFile(h: Handle) returns (err: Errno)
    requires Quiet(h) && h.ws.baseSize == 0 && h.ws.dirtyRanges == [ByteRange(0, h.ws.logicalSize)]
    modifies h.ws, h.ws.hub
    ensures h.ws.Valid() && err == OK && h.ws.hub.content == h.ws.View() == old(h.ws.View())
  {
    ghost var dirty, n := h.ws.dirtyRanges, h.ws.logicalSize;
    assert forall x :: 0 <= x < n ==> InRange(dirty[0], x) && Covers(dirty, x);
    assert Covered(dirty, n) == Offsets(dirty[0]);
    OffsetsSize(dirty[0]);
    forall planned | IsPlan(planned, dirty, 0, h.ws.chunkSize) ensures |planned| <= 1 {
      forall x ensures Covers(planned, x) <==> Covers(dirty, x) {
        if 0 <= x {
          PlannedIff(planned, dirty, 0, h.ws.chunkSize, x);
        } else {
          PlannedNonNegative(planned, dirty, 0, h.ws.chunkSize);
        }
      }
      CanonicalFormUnique(planned, dirty);
    }
    err := CommitMostlyDirty(h);
  }
}
