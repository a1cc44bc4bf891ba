/** Publishing the overlay: the four rungs of the commit ladder, each proved against the
    content the overlay shows. */
module Commit {
  import opened Options
  import opened Errnos
  import opened FileBytes
  import opened Numbers
  import opened ByteRanges
  import opened HubFile
  import opened Overlay
  import opened CommitPlan
  import opened PatchPlan
  import opened Publish
  import opened SharedWalk

  class Handle {
    const ws: WriteState

    constructor (ws: WriteState)
      ensures this.ws == ws
    {
      this.ws := ws;
    }

    /** The commit the state calls for, given its plan. */
    ghost function JobOf(planned: seq<ByteRange>): Job
      requires ws.Valid()
      reads ws
    {
      Job(PickRung(planned, ws.dirtyRanges, ws.baseSize, ws.logicalSize), planned, ws.dirtyRanges, ws.baseSize, ws.logicalSize,
        ws.pageSize, ws.chunkSize)
    }

    /** The bytes left to the base are the stored ones. What else is stored, and how much, may be the
        work of earlier attempts. */
    ghost predicate InTouch()
      reads ws, ws.hub
    {
      && (ws.baseTemp.Some? ==> |ws.baseTemp.value| == ws.baseSize)
      && forall x :: 0 <= x < ws.baseSize && x < ws.logicalSize && !Covers(ws.dirtyRanges, x) ==>
        x < |ws.hub.content| && ws.hub.content[x] == At(ws.Base(), x)
    }

    lemma InTouchMatches()
      requires ws.Valid() && InTouch()
      ensures forall planned :: Matches(JobOf(planned), ws.hub.content, ws.View()) && CleanStored(JobOf(planned), |ws.hub.content|)
      ensures ws.BaseWhole()
    {
      forall x | 0 <= x < ws.logicalSize ensures ws.View()[x] == ws.VisibleAt(x) {
      }
    }

    // ----- building the input of a rung

    /** Widens the dirty spans to chunks and merges them. */
    method PlannedRanges() returns (planned: seq<ByteRange>)
      requires ws.Valid()
      ensures IsPlan(planned, ws.dirtyRanges, ws.baseSize, ws.chunkSize)
    {
      planned := [];
      var dirty := ws.dirtyRanges;
      for n := 0 to |dirty|
        invariant Canonical(planned)
        invariant forall x :: Covers(planned, x) <==>
          exists k :: 0 <= k < n && InRange(PlanOf(dirty[k], ws.baseSize, ws.chunkSize), x)
      {
        planned := AppendMerge(planned, PlanOf(dirty[n], ws.baseSize, ws.chunkSize));
      }
    }

    /** One page of the content shown, read through `buf`. */
    method ReadPage(buf: array<Byte>, want: nat, offset: nat) returns (data: seq<Byte>, err: Errno)
      requires ws.Valid() && want <= buf.Length
      modifies buf, ws`temp
      ensures ws.Valid() && ws.View() == old(ws.View()) && (old(ws.temp).Some? ==> ws.temp == old(ws.temp))
      ensures err == OK ==> data == ReadAt(ws.View(), offset, want)
      ensures ws.hub.reliable && ws.BaseWhole() ==> err == OK
    {
      var n;
      n, err := ws.ReadInto(buf, want, offset);
      data := buf[..n];
    }

    /** Copies the content shown on `[start, end)` into `out`, a page at a time; stops at the
        end of the file. */
    method WriteRangeTo(out: seq<Byte>, start: nat, end: nat) returns (res: seq<Byte>, err: Errno)
      requires ws.Valid() && |out| == ws.logicalSize
      modifies ws`temp
      ensures ws.Valid() && ws.View() == old(ws.View()) && (old(ws.temp).Some? ==> ws.temp == old(ws.temp))
      ensures err == OK ==> |res| == |out|
      ensures err == OK ==> forall x :: 0 <= x < |out| ==> res[x] == if start <= x < end then ws.View()[x] else out[x]
      ensures ws.hub.reliable && ws.BaseWhole() ==> err == OK
    {
      res := out;
      var buf := new Byte[ws.pageSize];
      var offset := start;
      while offset < end
        invariant start <= offset && (if start <= end then offset <= end else offset == start)
        invariant fresh(buf) && buf.Length == ws.pageSize
        invariant ws.Valid() && ws.View() == old(ws.View()) && (old(ws.temp).Some? ==> ws.temp == old(ws.temp))
        invariant |res| == |out|
        invariant forall x :: 0 <= x < |out| ==> res[x] == if start <= x < offset then ws.View()[x] else out[x]
      {
        var want := buf.Length;
        if want > end - offset {
          want := end - offset;
        }
        var data;
        data, err := ReadPage(buf, want, offset);
        if err != OK {
          return;
        }
        if |data| == 0 {
          return res, OK;
        }
        res := WriteAt(res, offset, data);
        offset := offset + |data|;
      }
      return res, OK;
    }

    /** The input of a chunk rewrite: the planned ranges over a file of holes. */
    method RangeSnapshot(ranges: seq<ByteRange>) returns (snapshot: seq<Byte>, err: Errno)
      requires ws.Valid() && Canonical(ranges) && forall k :: 0 <= k < |ranges| ==> 0 <= ranges[k].start
      modifies ws`temp
      ensures ws.Valid() && ws.View() == old(ws.View()) && (old(ws.temp).Some? ==> ws.temp == old(ws.temp))
      ensures err == OK ==> snapshot == SnapshotOf(ranges, ws.View())
      ensures ws.hub.reliable && ws.BaseWhole() ==> err == OK
    {
      snapshot := Zeros(ws.logicalSize);
      for n := 0 to |ranges|
        invariant ws.Valid() && ws.View() == old(ws.View()) && (old(ws.temp).Some? ==> ws.temp == old(ws.temp))
        invariant |snapshot| == ws.logicalSize
        invariant forall x :: 0 <= x < ws.logicalSize ==>
          snapshot[x] == if Covers(ranges[..n], x) then ws.View()[x] else 0
      {
        CoversGrow(ranges, n);
        snapshot, err := WriteRangeTo(snapshot, ranges[n].start, ranges[n].end);
        if err != OK {
          return;
        }
      }
      assert ranges[..|ranges|] == ranges;
      return snapshot, OK;
    }

    /** The input of a full replace: the temp itself when it holds everything, else a snapshot. */
    method ReplaceInput() returns (input: seq<Byte>, err: Errno)
      requires ws.Valid() && ws.Honest()
      modifies ws`temp
      ensures ws.Valid() && ws.View() == old(ws.View()) && (old(ws.temp).Some? ==> ws.temp == old(ws.temp))
      ensures err == OK ==> input == ws.View()
      ensures ws.hub.reliable && ws.BaseWhole() ==> err == OK
    {
      var covers := ws.CoversRange(0, ws.logicalSize);
      if ws.temp.Some? && (ws.tempAuthoritative || covers) {
        ws.temp := Some(Resize(ws.temp.value, ws.logicalSize));
        assert ws.temp.value == old(ws.temp).value;
        assert forall x :: 0 <= x < ws.logicalSize ==> ws.View()[x] == ws.VisibleAt(x);
        return ws.temp.value, OK;
      }
      input, err := WriteRangeTo(Zeros(ws.logicalSize), 0, ws.logicalSize);
    }

    /** The batch of a patch commit, one page-sized edit at a time. */
    method PatchEdits() returns (edits: seq<RangeEdit>, err: Errno)
      requires ws.Valid()
      modifies ws`temp
      ensures ws.Valid() && ws.View() == old(ws.View()) && (old(ws.temp).Some? ==> ws.temp == old(ws.temp))
      ensures err == OK ==> edits == SpanEdits(ws.dirtyRanges, ws.pageSize, ws.baseSize, ws.View())
      ensures ws.hub.reliable && ws.BaseWhole() ==> err == OK
    {
      edits := [];
      for n := 0 to |ws.dirtyRanges|
        invariant ws.Valid() && ws.View() == old(ws.View()) && (old(ws.temp).Some? ==> ws.temp == old(ws.temp))
        invariant edits == SpanEdits(ws.dirtyRanges[..n], ws.pageSize, ws.baseSize, ws.View())
      {
        SpanEditsNext(ws.dirtyRanges, n, ws.pageSize, ws.baseSize, ws.View());
        var more;
        more, err := EditsOfSpan(ws.dirtyRanges[n]);
        if err != OK {
          return;
        }
        edits := edits + more;
      }
      assert ws.dirtyRanges[..|ws.dirtyRanges|] == ws.dirtyRanges;
      return edits, OK;
    }

    /** The edit of one page. A short read inside the file is refused. */
    method EditOfPage(offset: nat, end: nat) returns (edit: RangeEdit, err: Errno)
      requires ws.Valid() && offset < end <= ws.logicalSize
      modifies ws`temp
      ensures ws.Valid() && ws.View() == old(ws.View()) && (old(ws.temp).Some? ==> ws.temp == old(ws.temp))
      ensures err == OK ==> edit == RangeEdit(offset, DeleteSize(offset, end, ws.baseSize), ws.View()[offset..end])
      ensures ws.hub.reliable && ws.BaseWhole() ==> err == OK
    {
      edit := RangeEdit(offset, 0, []);
      var size := ws.logicalSize;
      var buf := new Byte[end - offset];
      var data;
      data, err := ReadPage(buf, end - offset, offset);
      if err != OK {
        return;
      }
      if |data| < end - offset && offset + |data| < size {
        return edit, EIO;
      }
      data := Resize(data, end - offset);
      var deleteSize := end - offset;
      if offset >= ws.baseSize {
        deleteSize := 0;
      } else if deleteSize > ws.baseSize - offset {
        deleteSize := ws.baseSize - offset;
      }
      edit := RangeEdit(offset, deleteSize, data);
    }

    /** The pages of one dirty span. */
    method EditsOfSpan(dirty: ByteRange) returns (edits: seq<RangeEdit>, err: Errno)
      requires ws.Valid() && 0 <= dirty.start < dirty.end <= ws.logicalSize
      modifies ws`temp
      ensures ws.Valid() && ws.View() == old(ws.View()) && (old(ws.temp).Some? ==> ws.temp == old(ws.temp))
      ensures err == OK ==> edits == PageEdits(dirty.start, dirty.end, ws.pageSize, ws.baseSize, ws.View())
      ensures ws.hub.reliable && ws.BaseWhole() ==> err == OK
    {
      edits := [];
      var offset := dirty.start;
      ghost var view := ws.View();
      ghost var all := PageEdits(dirty.start, dirty.end, ws.pageSize, ws.baseSize, view);
      while offset < dirty.end
        invariant dirty.start <= offset <= dirty.end
        invariant ws.Valid() && ws.View() == view && (old(ws.temp).Some? ==> ws.temp == old(ws.temp))
        invariant edits + PageEdits(offset, dirty.end, ws.pageSize, ws.baseSize, view) == all
      {
        var end := offset + ws.pageSize;
        if end > dirty.end {
          end := dirty.end;
        }
        var edit;
        edit, err := EditOfPage(offset, end);
        if err != OK {
          return;
        }
        NextPageEdit(edits, all, edit, offset, dirty.end, ws.pageSize, ws.baseSize, view);
        edits := edits + [edit];
        offset := end;
      }
      return edits, OK;
    }

    // ----- the rungs

    /** Nothing is dirty any more and the base has the file's size. */
    ghost predicate Settled()
      reads ws
    {
      ws.dirtyRanges == [] && ws.baseSize == ws.logicalSize && !ws.tempAuthoritative
    }

    /** Moves the state past a successful upload. With a local base snapshot, that snapshot
        takes the bytes of the spans that are still listed; without one, the hub is the base. */
    method CacheRefresh()
      requires ws.Shaped()
      modifies ws
      ensures ws.Valid() && ws.Honest() && Settled()
      ensures ws.logicalSize == old(ws.logicalSize) && ws.temp == old(ws.temp) && ws.poisoned == old(ws.poisoned)
      ensures ws.baseTemp.Some? == old(ws.baseTemp).Some?
      ensures ws.baseTemp.Some? ==> ws.baseTemp.value == ws.View()
      ensures old(ws.baseTemp).None? ==> forall x :: 0 <= x < ws.logicalSize ==> ws.View()[x] == At(ws.hub.content, x)
      ensures old(ws.baseTemp).Some? ==> forall x :: 0 <= x < ws.logicalSize ==>
        ws.View()[x] == Visible(old(ws.TempBytes()), old(ws.baseTemp).value, ws.logicalSize, old(ws.dirtyRanges), x)
    {
      ws.RefreshBaseSnapshot();
      ws.baseSize := ws.logicalSize;
      ws.dirtyRanges := [];
      ws.tempAuthoritative := false;
    }

    /** A failed commit: all of it is still to be published. */
    twostate predicate StillDirty()
      reads ws
    {
      && ws.dirtyRanges == old(ws.dirtyRanges) && ws.tempAuthoritative == old(ws.tempAuthoritative)
      && ws.baseSize == old(ws.baseSize) && ws.logicalSize == old(ws.logicalSize) && ws.baseTemp == old(ws.baseTemp)
      && (old(ws.temp).Some? ==> ws.temp == old(ws.temp))
    }

    /** The hub has answered what was sent, unless a read failed before anything was. */
    twostate predicate Went(sent: Sent, err: Errno)
      reads ws, ws.hub
    {
      ws.hub.Answered(sent, err) || (!ws.hub.reliable && err != OK && ws.hub.content == old(ws.hub.content))
    }

    /** A commit that went through, on a rung other than the patch: over the hub the overlay shows
        what is stored; over a base snapshot it shows what it showed. */
    twostate predicate Refreshed()
      requires 0 <= old(ws.logicalSize) && 0 <= ws.logicalSize
      reads ws, ws.hub
    {
      && Settled() && ws.logicalSize == old(ws.logicalSize) && ws.baseTemp.Some? == old(ws.baseTemp).Some?
      && (ws.baseTemp.Some? ==> ws.baseTemp.value == ws.View() == old(ws.View()))
      && (ws.baseTemp.None? ==> forall x :: 0 <= x < ws.logicalSize ==> ws.View()[x] == At(ws.hub.content, x))
    }

    /** Nothing dirty: only the size can differ. */
    method CommitTruncate() returns (err: Errno)
      requires ws.Valid() && InTouch() && ws.dirtyRanges == [] && ws.logicalSize != ws.baseSize
      modifies ws, ws.hub
      ensures ws.Valid() && (old(ws.Honest()) ==> ws.Honest()) && ws.poisoned == old(ws.poisoned)
      ensures Went(SendTruncate(old(ws.hub.content), old(ws.logicalSize), old(ws.hub.fates)), err)
      ensures err == OK ==> Refreshed()
      ensures err != OK ==> StillDirty()
    {
      ghost var view := ws.View();
      err := ws.hub.TruncateFile(ws.logicalSize);
      if err != OK {
        return;
      }
      CacheRefresh();
      assert forall x :: 0 <= x < ws.logicalSize && ws.baseTemp.Some? ==> ws.View()[x] == view[x];
      return OK;
    }

    /** The touched chunks are rebuilt from a snapshot of the planned ranges. */
    method CommitChunkRewrite(planned: seq<ByteRange>) returns (err: Errno)
      requires ws.Valid() && InTouch() && ws.dirtyRanges != []
      requires IsPlan(planned, ws.dirtyRanges, ws.baseSize, ws.chunkSize)
      modifies ws, ws.hub
      ensures ws.Valid() && (old(ws.Honest()) ==> ws.Honest()) && ws.poisoned == old(ws.poisoned)
      ensures Went(Send(old(ws.hub.content),
        Rewritten(old(ws.hub.content), SnapshotOf(planned, old(ws.View())), old(ws.logicalSize), ws.chunkSize, planned),
        old(ws.hub.fates)), err)
      ensures err == OK ==> Refreshed()
      ensures err != OK ==> StillDirty()
    {
      ghost var view := ws.View();
      PlannedNonNegative(planned, ws.dirtyRanges, ws.baseSize, ws.chunkSize);
      InTouchMatches();
      var snapshot;
      snapshot, err := RangeSnapshot(planned);
      if err != OK {
        return;
      }
      err := ws.hub.RewriteFileRanges(snapshot, ws.logicalSize, ws.chunkSize, planned);
      if err != OK {
        return;
      }
      CacheRefresh();
      assert forall x :: 0 <= x < ws.logicalSize && ws.baseTemp.Some? ==> ws.View()[x] == view[x];
      return OK;
    }

    /** The whole file is replaced. */
    method CommitReplace() returns (err: Errno)
      requires ws.Valid() && ws.Honest() && InTouch() && ws.dirtyRanges != []
      modifies ws, ws.hub
      ensures ws.Valid() && ws.Honest() && ws.poisoned == old(ws.poisoned)
      ensures Went(Send(old(ws.hub.content), old(ws.View()), old(ws.hub.fates)), err)
      ensures err == OK ==> Refreshed()
      ensures err != OK ==> StillDirty()
    {
      ghost var view := ws.View();
      InTouchMatches();
      var input;
      input, err := ReplaceInput();
      if err != OK {
        return;
      }
      err := ws.hub.ReplaceFile(input);
      if err != OK {
        return;
      }
      CacheRefresh();
      assert forall x :: 0 <= x < ws.logicalSize && ws.baseTemp.Some? ==> ws.View()[x] == view[x];
      return OK;
    }

    /** Each dirty span is patched in place, then the size is reconciled. Over the hub the overlay then
        shows what is stored; over a base snapshot it shows the old bytes of the spans that the
        consuming walk had dropped. */
    method CommitPatch() returns (err: Errno)
      requires ws.Valid() && InTouch() && ws.dirtyRanges != []
      modifies ws, ws.hub
      ensures ws.Valid() && (old(ws.Honest()) ==> ws.Honest()) && ws.poisoned == old(ws.poisoned)
      ensures Went(SendBatch(old(ws.hub.content), SpanEdits(old(ws.dirtyRanges), ws.pageSize, old(ws.baseSize), old(ws.View())),
        Reconciles(old(ws.dirtyRanges), old(ws.baseSize), old(ws.logicalSize)), old(ws.logicalSize), old(ws.hub.fates)), err)
      ensures err == OK ==> Settled() && ws.logicalSize == old(ws.logicalSize) && ws.baseTemp.Some? == old(ws.baseTemp).Some?
      ensures err == OK && ws.baseTemp.Some? ==> ws.baseTemp.value == ws.View()
      ensures err == OK ==> forall x :: 0 <= x < ws.logicalSize ==>
        ws.View()[x] == AfterPatch(old(ws.baseTemp), old(ws.dirtyRanges), old(ws.View()), ws.hub.content, x)
      ensures err != OK ==> StillDirty()
    {
      err := UploadPatch();
      if err != OK {
        return;
      }
      LeftoverListed(ws.dirtyRanges, ws.logicalSize);
      ws.dirtyRanges := ConsumePlanned(ws.dirtyRanges);
      CacheRefresh();
      return OK;
    }

    /** The network part of a patch commit. A failure may leave the batch without the size sent after
        it, or either of them carried out unnoticed. */
    method UploadPatch() returns (err: Errno)
      requires ws.Valid() && InTouch() && ws.dirtyRanges != []
      modifies ws`temp, ws.hub
      ensures ws.Valid() && StillDirty()
      ensures Went(SendBatch(old(ws.hub.content), SpanEdits(ws.dirtyRanges, ws.pageSize, ws.baseSize, old(ws.View())),
        Reconciles(ws.dirtyRanges, ws.baseSize, ws.logicalSize), ws.logicalSize, old(ws.hub.fates)), err)
    {
      InTouchMatches();
      var edits;
      edits, err := PatchEdits();
      if err != OK {
        return;
      }
      err := SendPatchAndSize(edits);
    }

    /** The two verbs of a patch commit. */
    method SendPatchAndSize(edits: seq<RangeEdit>) returns (err: Errno)
      requires ws.Shaped() && ws.dirtyRanges != []
      modifies ws.hub
      ensures ws.hub.Answered(SendBatch(old(ws.hub.content), edits, Reconciles(ws.dirtyRanges, ws.baseSize, ws.logicalSize),
        ws.logicalSize, old(ws.hub.fates)), err)
    {
      var dirty := ws.dirtyRanges;
      err := ws.hub.PatchFileRanges(edits);
      if err != OK {
        return;
      }
      if ws.logicalSize != ws.baseSize {
        var appendOnly := |dirty| == 1 && dirty[0].start >= ws.baseSize && ws.logicalSize == dirty[0].end;
        if !appendOnly {
          err := ws.hub.TruncateFile(ws.logicalSize);
        }
      }
    }

    // ----- the commit

    /** The overlay after a commit that went through. */
    twostate predicate After(rung: Rung)
      requires 0 <= old(ws.logicalSize)
      reads ws, ws.hub
    {
      && ws.dirtyRanges == [] && ws.baseSize == ws.logicalSize == old(ws.logicalSize)
      && ws.baseTemp.Some? == old(ws.baseTemp).Some?
      && (ws.baseTemp.Some? ==> ws.baseTemp.value == ws.View())
      && forall x :: 0 <= x < ws.logicalSize ==>
        ws.View()[x] == ShownByte(rung, old(ws.baseTemp), old(ws.dirtyRanges), old(ws.View()), ws.hub.content, x)
    }

    /** What being right is worth: a commit that went through has stored the content shown; one that
        failed has changed nothing that is shown; and either way the next one can follow. */
    twostate predicate Good(rung: Rung, err: Errno)
      requires 0 <= old(ws.logicalSize) && ws.Valid()
      reads ws, ws.hub
    {
      && (err == OK ==> ws.hub.content == old(ws.View()))
      && (err != OK ==> ws.View() == old(ws.View()))
      && (!(err == OK && rung == PatchRung && old(ws.baseTemp).Some?) ==> InTouch())
    }

    /** The ladder itself. */
    method ClimbLadder() returns (planned: seq<ByteRange>, err: Errno)
      requires ws.Valid() && (ws.dirtyRanges != [] ==> ws.Honest()) && InTouch()
      modifies ws, ws.hub
      ensures ws.Valid() && (old(ws.Honest()) ==> ws.Honest()) && ws.poisoned == old(ws.poisoned)
      ensures old(IsJob(JobOf(planned))) && Went(old(SendJob(JobOf(planned), ws.hub.content, ws.View(), ws.hub.fates)), err)
      ensures err == OK ==> After(old(JobOf(planned)).rung)
      ensures err != OK ==> StillDirty()
    {
      planned := PlannedRanges();
      var rung := PickRung(planned, ws.dirtyRanges, ws.baseSize, ws.logicalSize);
      match rung
      case Nothing =>
        assert forall x :: 0 <= x < ws.logicalSize ==> ws.View()[x] == At(ws.Base(), x);
        err := OK;
      case TruncateRung => err := CommitTruncate();
      case RewriteRung => err := CommitChunkRewrite(planned);
      case ReplaceRung => err := CommitReplace();
      case PatchRung => err := CommitPatch();
    }

    /** A commit that failed shows what it showed, if what it left at the hub matches that. */
    lemma FailedIsGood(j: Job, view: seq<Byte>)
      requires ws.Valid() && |view| == ws.logicalSize && j.dirty == ws.dirtyRanges && j.baseSize == ws.baseSize
      requires Matches(j, ws.hub.content, view)
      requires forall x :: 0 <= x < |view| && Covers(ws.dirtyRanges, x) ==> view[x] == At(ws.TempBytes(), x)
      requires ws.baseTemp.Some? ==> |ws.baseTemp.value| == ws.baseSize
      requires ws.baseTemp.Some? ==> forall x :: 0 <= x < ws.baseSize && x < |view| && !Covers(ws.dirtyRanges, x) ==>
        view[x] == ws.baseTemp.value[x]
      ensures ws.View() == view && InTouch()
    {
      forall x | 0 <= x < |view| ensures ws.VisibleAt(x) == view[x] {
      }
    }

    /** The ladder, in a state that is right or is not. */
    method CommitTemp() returns (planned: seq<ByteRange>, err: Errno)
      requires ws.Valid() && (ws.dirtyRanges != [] ==> ws.Honest()) && InTouch()
      modifies ws, ws.hub
      ensures ws.Valid() && (old(ws.Honest()) ==> ws.Honest()) && ws.poisoned == old(ws.poisoned)
      ensures old(IsJob(JobOf(planned))) && Went(old(SendJob(JobOf(planned), ws.hub.content, ws.View(), ws.hub.fates)), err)
      ensures err == OK ==> After(old(JobOf(planned)).rung)
      ensures err != OK ==> StillDirty()
      ensures old(Right(JobOf(planned), |ws.hub.content|)) ==> Good(old(JobOf(planned)).rung, err)
    {
      ghost var view, content, fates, stored := ws.View(), ws.hub.content, ws.hub.fates, |ws.hub.content|;
      InTouchMatches();
      planned, err := ClimbLadder();
      ghost var j := old(JobOf(planned));
      if Right(j, stored) {
        RightPublishes(j, content, view, fates);
        assert Matches(j, ws.hub.content, view);
        if err != OK {
          FailedIsGood(j, view);
        }
      }
    }

    /** Flush, fsync and the last close all come here. Whatever is stored and whatever becomes of the
        requests, a commit sends what the ladder says, and afterwards shows what is stored, or over a
        base snapshot what it showed, but for a patch. On failure everything stays dirty. In the
        states that are right, a commit that went through has stored the content shown, and one that
        failed has changed nothing that is shown, and can be repeated. */
    method Commit() returns (planned: seq<ByteRange>, err: Errno)
      requires ws.Valid() && (ws.dirtyRanges != [] ==> ws.Honest()) && InTouch()
      modifies ws, ws.hub
      ensures ws.Valid() && (old(ws.Honest()) ==> ws.Honest()) && ws.poisoned == old(ws.poisoned)
      ensures old(ws.poisoned) ==> err == EIO && unchanged(ws) && unchanged(ws.hub)
      ensures !old(ws.poisoned) ==> old(IsJob(JobOf(planned)))
      ensures !old(ws.poisoned) ==> Went(old(SendJob(JobOf(planned), ws.hub.content, ws.View(), ws.hub.fates)), err)
      ensures err == OK ==> After(old(JobOf(planned)).rung)
      ensures err != OK ==> StillDirty()
      ensures !old(ws.poisoned) && old(Right(JobOf(planned), |ws.hub.content|)) ==> Good(old(JobOf(planned)).rung, err)
    {
      if ws.poisoned {
        return [], EIO;
      }
      planned, err := CommitTemp();
    }
  }

  /** What the overlay shows at `x` after a commit that went through: over the hub what is stored; over
      a base snapshot what it showed, except that a patch has forgotten spans. */
  ghost function ShownByte(rung: Rung, baseTemp: Option<seq<Byte>>, dirty: seq<ByteRange>, view: seq<Byte>, content: seq<Byte>,
                           x: int): Byte {
    if rung == PatchRung then AfterPatch(baseTemp, dirty, view, content, x)
    else if baseTemp.None? then At(content, x)
    else At(view, x)
  }

  ghost function AfterPatch(baseTemp: Option<seq<Byte>>, dirty: seq<ByteRange>, view: seq<Byte>, content: seq<Byte>, x: int): Byte {
    if baseTemp.None? then At(content, x)
    else if Covers(dirty, x) && !Covers(Leftover(dirty), x) then At(baseTemp.value, x)
    else At(view, x)
  }

  lemma LeftoverListed(dirty: seq<ByteRange>, n: nat)
    requires Canonical(dirty) && Within(dirty, 0, n)
    ensures Canonical(Leftover(dirty)) && Within(Leftover(dirty), 0, n)
    ensures forall x :: Covers(Leftover(dirty), x) ==> Covers(dirty, x)
  {
    var left := Leftover(dirty);
    forall x | Covers(left, x) ensures Covers(dirty, x) {
      var k :| 0 <= k < |left| && InRange(left[k], x);
      assert InRange(dirty[2 * k + 1], x);
    }
  }
}
