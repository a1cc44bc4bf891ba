/** The states in which the overlay does not behave like the byte sequence it stands for: each with
    the exact condition, for every content, and with a run that gets there and shows the damage. */
module BadRuns {
  import opened Options
  import opened Errnos
  import opened FileBytes
  import opened Numbers
  import opened ByteRanges
  import opened HubFile
  import opened Overlay
  import opened CommitPlan
  import opened PatchPlan
  import opened SharedWalk
  import opened Publish
  import opened Commit

  // ----- growing back

  /** Growing an authoritative overlay marks nothing. It shows zeros past the old end for every base
      exactly when the base ends no later than the file did. */
  lemma StaleRegrowShows(temp: seq<Byte>, dirty: seq<ByteRange>, baseSize: nat, oldSize: nat, size: nat)
    requires oldSize < size && |temp| == oldSize && Within(dirty, 0, oldSize)
    ensures (forall base: seq<Byte> | |base| == baseSize ::
        ViewOf(Resize(temp, size), base, baseSize, dirty, size) == Resize(ViewOf(temp, base, baseSize, dirty, oldSize), size))
      <==> baseSize <= oldSize
  {
    CoverWithin(dirty, 0, oldSize);
    if oldSize < baseSize {
      var base: seq<Byte> := seq(baseSize, _ => 1);
      var grown := ViewOf(Resize(temp, size), base, baseSize, dirty, size);
      assert grown[oldSize] == 1 != Resize(ViewOf(temp, base, baseSize, dirty, oldSize), size)[oldSize];
    } else {
      forall base: seq<Byte> | |base| == baseSize
        ensures ViewOf(Resize(temp, size), base, baseSize, dirty, size) == Resize(ViewOf(temp, base, baseSize, dirty, oldSize), size)
      {
      }
    }
  }

  /** Open with O_TRUNC, then ftruncate back to two bytes: the old bytes are read again, and
      the commit finds nothing to do. */
  method StaleRegrowRun(hub: Hub) returns (data: seq<Byte>, err: Errno)
    requires hub.content == [65, 66] && hub.reliable
    modifies hub
    ensures data == [65, 66] && err == OK && hub.content == [65, 66]
  {
    var ws := new WriteState(hub, 2, 0, 0, false);
    var h := new Handle(ws);
    TruncateAndRegrow(ws);
    var buf := new Byte[2];
    data, err := h.ReadPage(buf, 2, 0);
    var planned;
    planned, err := h.Commit();
  }

  method TruncateAndRegrow(ws: WriteState)
    requires ws.Valid() && !ws.poisoned && ws.baseSize == 2 && ws.hub.content == [65, 66] && ws.baseTemp.None?
    modifies ws
    ensures ws.Valid() && ws.baseSize == ws.logicalSize == 2 && ws.baseTemp.None? && !ws.poisoned
    ensures ws.dirtyRanges == [] && ws.View() == [65, 66]
  {
    var _ := ws.SetSize(0);
    CoverWithin(ws.dirtyRanges, 0, 0);
    var _ := ws.SetSize(2);
    EmptyCover(ws.dirtyRanges);
  }

  // ----- a patch over a base snapshot

  /** After a patch the base snapshot has the dirty bytes that the consuming walk left listed. A byte
      is shown as before, whatever the temp and the snapshot hold, exactly when it was clean or is
      still listed. */
  lemma ForgottenIff(dirty: seq<ByteRange>, baseSize: nat, size: nat, x: nat)
    requires Canonical(dirty) && Within(dirty, 0, size) && x < size
    ensures (forall temp: seq<Byte>, snapshot: seq<Byte> | |temp| == size && |snapshot| == baseSize ::
        ViewOf(temp, snapshot, size, Leftover(dirty), size)[x] == ViewOf(temp, snapshot, baseSize, dirty, size)[x])
      <==> !Covers(dirty, x) || Covers(Leftover(dirty), x)
  {
    LeftoverListed(dirty, size);
    if Covers(dirty, x) && !Covers(Leftover(dirty), x) {
      var temp: seq<Byte>, snapshot: seq<Byte> := seq(size, _ => 1), Zeros(baseSize);
      assert ViewOf(temp, snapshot, size, Leftover(dirty), size)[x] == 0 != ViewOf(temp, snapshot, baseSize, dirty, size)[x];
    }
  }

  /** The first dirty span is never left listed. */
  lemma FirstForgotten(dirty: seq<ByteRange>, size: nat)
    requires Canonical(dirty) && Within(dirty, 0, size) && dirty != []
    ensures forall x :: InRange(dirty[0], x) ==> Covers(dirty, x) && !Covers(Leftover(dirty), x)
  {
    var left := Leftover(dirty);
    forall x | InRange(dirty[0], x) ensures Covers(dirty, x) && !Covers(left, x) {
      forall k | 0 <= k < |left| ensures !InRange(left[k], x) {
        assert dirty[0].end < dirty[2 * k + 1].start;
      }
    }
  }

  /** The plan of a single dirty span. */
  lemma SinglePlan(j: Job)
    requires IsJob(j) && |j.dirty| == 1
    ensures j.planned == [PlanOf(j.dirty[0], j.baseSize, j.chunk)]
  {
    var planned := [PlanOf(j.dirty[0], j.baseSize, j.chunk)];
    forall x ensures Covers(planned, x) <==> Covers(j.planned, x) {
      CoversSingle(planned[0], x);
      assert Covers(j.planned, x) <==> InPlan(j.dirty, j.baseSize, j.chunk, x);
    }
    CanonicalFormUnique(planned, j.planned);
  }

  /** The batch of a single span that fits one page. */
  lemma SingleBatch(r: ByteRange, page: nat, baseSize: nat, view: seq<Byte>)
    requires page > 0 && 0 <= r.start < r.end <= |view| && r.end - r.start <= page
    ensures SpanEdits([r], page, baseSize, view) == [RangeEdit(r.start, DeleteSize(r.start, r.end, baseSize), view[r.start..r.end])]
  {
    assert [r][..0] == [];
    assert SpanEdits([r], page, baseSize, view) == SpanEdits([], page, baseSize, view) + PageEdits(r.start, r.end, page, baseSize, view);
    assert PageEdits(r.end, r.end, page, baseSize, view) == [];
  }

  lemma SinglePatched(content: seq<Byte>, e: RangeEdit)
    requires e.start >= 0 && e.deleteSize >= 0 && |e.data| > 0 && e.End() <= |content|
    ensures BatchAccepted([e], |content|) && Patched(content, [e]) == content[..e.start] + e.data + content[e.End()..]
  {
    assert [e][1..] == [];
    AcceptedInside([e], |content|);
    assert ApplyEdits(content, [e], 0) == SpliceOne(content, e.start, e);
  }

  /** A single small span is patched, whatever the chunks. */
  lemma SingleRung(j: Job)
    requires IsJob(j) && |j.dirty| == 1 && 2 * (j.dirty[0].end - j.dirty[0].start) < Max(j.baseSize, j.size)
    ensures j.rung == PatchRung
  {
    SinglePlan(j);
    assert j.dirty[..0] == [];
    assert TotalBytes(j.dirty) == j.dirty[0].end - j.dirty[0].start;
  }

  /** What a single span sends, when it fits one page. */
  lemma SingleJob(j: Job, content: seq<Byte>, view: seq<Byte>, fates: seq<Fate>)
    requires IsJob(j) && |j.dirty| == 1 && 2 * (j.dirty[0].end - j.dirty[0].start) < Max(j.baseSize, j.size) && |view| == j.size
    requires j.dirty[0].end - j.dirty[0].start <= j.page
    requires var r := j.dirty[0]; r.start + DeleteSize(r.start, r.end, j.baseSize) <= |content|
    ensures j.rung == PatchRung
    ensures var r := j.dirty[0];
      var patched := content[..r.start] + view[r.start..r.end] + content[r.start + DeleteSize(r.start, r.end, j.baseSize)..];
      var first := Send(content, patched, fates);
      SendJob(j, content, view, fates) ==
        if first.ok && Reconciles(j.dirty, j.baseSize, j.size) then SendTruncate(first.content, j.size, first.left) else first
  {
    var r := j.dirty[0];
    SingleRung(j);
    SingleBatch(r, j.page, j.baseSize, view);
    assert j.dirty == [r];
    SinglePatched(content, RangeEdit(r.start, DeleteSize(r.start, r.end, j.baseSize), view[r.start..r.end]));
  }

  /** A write into an overlay with nothing dirty: exactly its span is dirty afterwards. */
  method WriteFirst(ws: WriteState, data: seq<Byte>, off: nat)
    requires ws.Valid() && ws.Honest() && !ws.poisoned && ws.dirtyRanges == [] && off <= ws.logicalSize && data != []
    modifies ws
    ensures ws.Valid() && ws.Honest() && !ws.poisoned && ws.NothingUncovered() && ws.baseTemp == old(ws.baseTemp)
    ensures ws.dirtyRanges == [ByteRange(off, off + |data|)] && ws.tempAuthoritative == old(ws.tempAuthoritative)
    ensures ws.View() == WriteAt(old(ws.View()), off, data)
  {
    var _, err, list := ws.Write(data, off, false);
    ghost var marked := [ByteRange(off, off + |data|)];
    EmptyCover([]);
    forall x ensures Covers(marked, x) <==> off <= x < off + |data| {
      CoversSingle(marked[0], x);
    }
    UnionUnique(list, marked, [], off, off + |data|);
  }

  /** One byte written over a base snapshot, and committed: the hub has it, and the overlay shows the
      old byte again. */
  method ForgottenSpanRun(ws: WriteState) returns (err: Errno)
    requires ws.Valid() && ws.Honest() && !ws.poisoned && ws.hub.reliable && ws.hub.fates == []
    requires ws.baseSize == ws.logicalSize == 100 && ws.dirtyRanges == []
    requires ws.baseTemp.Some? && ws.hub.content == ws.baseTemp.value == ws.View() && ws.View()[0] == 1
    modifies ws, ws.hub
    ensures err == OK && |ws.hub.content| == 100 && ws.hub.content[0] == 2
    ensures ws.Valid() && ws.logicalSize == 100 && ws.View()[0] == 1
  {
    var h := new Handle(ws);
    WriteFirst(ws, [2], 0);
    ghost var view, content := ws.View(), ws.hub.content;
    label Written:
    var planned;
    planned, err := h.Commit();
    SingleJob(old@Written(h.JobOf(planned)), content, view, []);
    FirstForgotten([ByteRange(0, 1)], 100);
  }

  // ----- a retry

  /** An old file of ten bytes is emptied, twelve bytes are written and the file is extended to thirty.
      The batch of the commit lands, its size is lost. The retry is told that all went well, and has
      stored two bytes twice. */
  method ReplayRun(hub: Hub, data: seq<Byte>) returns (first: Errno, second: Errno)
    requires hub.reliable && |hub.content| == 10 && hub.fates == [Confirmed, Lost]
    requires |data| == 12 && data[10] == 2
    modifies hub
    ensures first != OK && second == OK && |hub.content| == 30 && hub.content[12] == 2
  {
    var ws := new WriteState(hub, 10, 100, 1000, false);
    var h := new Handle(ws);
    ReplayWrites(ws, data);
    ghost var view := ws.View();
    first := ReplayAttempt(h, view);
    assert hub.content == data;
    second := ReplayAttempt(h, view);
  }

  /** The twelve bytes are sent once more, and the size behind them. */
  method ReplayAttempt(h: Handle, ghost view: seq<Byte>) returns (err: Errno)
    requires h.ws.Valid() && h.ws.Honest() && !h.ws.poisoned && h.InTouch() && h.ws.hub.reliable && h.ws.baseTemp == None
    requires h.ws.dirtyRanges == [ByteRange(0, 12)] && h.ws.baseSize == 10 <= |h.ws.hub.content| && h.ws.logicalSize == 30
    requires h.ws.pageSize >= 12 && h.ws.View() == view
    modifies h.ws, h.ws.hub
    ensures h.ws.hub.Answered(ReplaySent(old(h.ws.hub.content), view, old(h.ws.hub.fates)), err)
    ensures |old(h.ws.hub.content)| == 10 && err != OK ==>
      && h.ws.Valid() && h.ws.Honest() && !h.ws.poisoned && h.InTouch() && h.ws.baseTemp == None && h.ws.View() == view
      && h.ws.dirtyRanges == [ByteRange(0, 12)] && h.ws.baseSize == 10 && h.ws.logicalSize == 30
  {
    ghost var content, fates := h.ws.hub.content, h.ws.hub.fates;
    var planned;
    planned, err := h.Commit();
    ReplayJob(old(h.JobOf(planned)), content, view, fates);
  }

  function ReplaySent(content: seq<Byte>, view: seq<Byte>, fates: seq<Fate>): Sent
    requires |content| >= 10 && |view| == 30
  {
    var first := Send(content, view[..12] + content[10..], fates);
    if first.ok then SendTruncate(first.content, 30, first.left) else first
  }

  lemma ReplayJob(j: Job, content: seq<Byte>, view: seq<Byte>, fates: seq<Fate>)
    requires IsJob(j) && j.dirty == [ByteRange(0, 12)] && j.baseSize == 10 <= |content| && j.size == 30 == |view| && j.page >= 12
    ensures j.rung == PatchRung && SendJob(j, content, view, fates) == ReplaySent(content, view, fates)
    ensures |content| == 10 ==> Right(j, |content|)
  {
    SingleJob(j, content, view, fates);
    assert content[..0] + view[0..12] + content[10..] == view[..12] + content[10..];
  }

  method ReplayWrites(ws: WriteState, data: seq<Byte>)
    requires ws.Valid() && ws.Honest() && !ws.poisoned && ws.dirtyRanges == [] && ws.baseTemp == None
    requires ws.baseSize == ws.logicalSize == 10 && |data| == 12
    modifies ws
    ensures ws.Valid() && ws.Honest() && !ws.poisoned && ws.baseTemp == None
    ensures ws.baseSize == 10 && ws.logicalSize == 30 && ws.dirtyRanges == [ByteRange(0, 12)] && ws.tempAuthoritative
    ensures ws.View()[..12] == data && ws.View()[12] == 0
  {
    var _ := ws.SetSize(0);
    CoverWithin(ws.dirtyRanges, 0, 0);
    EmptyCover(ws.dirtyRanges);
    WriteFirst(ws, data, 0);
    ghost var dirty := ws.dirtyRanges;
    var _ := ws.SetSize(30);
    CoverWithin(dirty, 0, 12);
    CanonicalFormUnique(ws.dirtyRanges, dirty);
  }

  /** A byte is appended and committed; the batch lands, its answer is lost. The commit is repeated, told
      that all went well, and has stored the byte twice: an appended span sends no size. */
  method AppendTwiceRun(hub: Hub) returns (first: Errno, second: Errno)
    requires hub.reliable && |hub.content| == 100 && hub.fates == [Unanswered]
    modifies hub
    ensures first != OK && second == OK && hub.content == old(hub.content) + [1, 1]
  {
    ghost var content := hub.content;
    var h := AppendByte(hub);
    ghost var view := h.ws.View();
    first := AppendAttempt(h, view);
    AddTwice(content);
    second := AppendAttempt(h, view);
  }

  method AppendByte(hub: Hub) returns (h: Handle)
    requires |hub.content| == 100
    ensures fresh(h) && fresh(h.ws) && h.ws.hub == hub
    ensures h.ws.Valid() && h.ws.Honest() && !h.ws.poisoned && h.InTouch() && h.ws.baseTemp == None
    ensures h.ws.dirtyRanges == [ByteRange(100, 101)] && h.ws.baseSize == 100 && h.ws.logicalSize == 101 && h.ws.View()[100] == 1
  {
    var ws := new WriteState(hub, 100, 100, 1000, false);
    h := new Handle(ws);
    WriteFirst(ws, [1], 100);
  }

  /** The byte at offset 100 is sent once more. */
  method AppendAttempt(h: Handle, ghost view: seq<Byte>) returns (err: Errno)
    requires h.ws.Valid() && h.ws.Honest() && !h.ws.poisoned && h.InTouch() && h.ws.hub.reliable && h.ws.baseTemp == None
    requires h.ws.dirtyRanges == [ByteRange(100, 101)] && h.ws.baseSize == 100 <= |h.ws.hub.content| && h.ws.logicalSize == 101
    requires h.ws.View() == view && view[100] == 1
    modifies h.ws, h.ws.hub
    ensures var content := old(h.ws.hub.content);
      h.ws.hub.Answered(Send(content, content[..100] + [1] + content[100..], old(h.ws.hub.fates)), err)
    ensures |old(h.ws.hub.content)| == 100 && err != OK ==>
      && h.ws.Valid() && h.ws.Honest() && !h.ws.poisoned && h.InTouch() && h.ws.baseTemp == None && h.ws.View() == view
      && h.ws.dirtyRanges == [ByteRange(100, 101)] && h.ws.baseSize == 100 && h.ws.logicalSize == 101
  {
    ghost var content, fates := h.ws.hub.content, h.ws.hub.fates;
    var planned;
    planned, err := h.Commit();
    AppendJob(old(h.JobOf(planned)), content, view, fates);
  }

  lemma AppendJob(j: Job, content: seq<Byte>, view: seq<Byte>, fates: seq<Fate>)
    requires IsJob(j) && j.dirty == [ByteRange(100, 101)] && j.baseSize == 100 <= |content| && j.size == 101 == |view| && view[100] == 1
    ensures j.rung == PatchRung && SendJob(j, content, view, fates) == Send(content, content[..100] + [1] + content[100..], fates)
    ensures |content| == 100 ==> Right(j, |content|) && content[..100] + [1] + content[100..] == content + [1]
  {
    SingleJob(j, content, view, fates);
    assert view[100..101] == [1];
  }

  lemma AddTwice(content: seq<Byte>)
    requires |content| == 100
    ensures content[..100] + [1] + content[100..] == content + [1]
    ensures (content + [1])[..100] + [1] + (content + [1])[100..] == content + [1, 1]
  {
  }

  // ----- a lost tail

  /** Two small spans of a file in chunks of four: one chunk at the front, one byte past the end. */
  lemma TailJob(j: Job)
    requires IsJob(j) && j.dirty == [ByteRange(0, 1), ByteRange(30, 31)] && j.baseSize == 30 && j.size == 31 && j.chunk == 4
    ensures j.planned == [ByteRange(0, 4), ByteRange(30, 31)] && j.rung == RewriteRung && TailLost(j.dirty, 30, 31, 4)
  {
    var planned := [ByteRange(0, 4), ByteRange(30, 31)];
    assert PlanOf(j.dirty[0], 30, 4) == planned[0] && PlanOf(j.dirty[1], 30, 4) == planned[1];
    forall x ensures Covers(planned, x) <==> Covers(j.planned, x) {
      assert Covers(j.planned, x) <==> InPlan(j.dirty, 30, 4, x);
      if InRange(planned[0], x) { assert InRange(PlanOf(j.dirty[0], 30, 4), x); }
      if InRange(planned[1], x) { assert InRange(PlanOf(j.dirty[1], 30, 4), x); }
    }
    CanonicalFormUnique(planned, j.planned);
    assert planned[..1] == [planned[0]] && TotalBytes(planned[..1]) == 4;
    assert InRange(j.dirty[1], 30) && Covers(j.dirty, 30);
  }

  /** A byte is written at the front of a file of thirty and a byte is appended. The commit is a chunk
      rewrite, and turns the last two of the old bytes to zero. */
  method LostTailRun(hub: Hub) returns (err: Errno)
    requires hub.reliable && |hub.content| == 30 && hub.content[28] == 1 && hub.fates == []
    modifies hub
    ensures err == OK && |hub.content| == 31 && hub.content[28] == 0
  {
    var ws := new WriteState(hub, 30, 100, 4, false);
    var h := new Handle(ws);
    TailWrites(ws);
    ghost var view, content := ws.View(), hub.content;
    label Written:
    var planned;
    planned, err := h.Commit();
    ghost var j := old@Written(h.JobOf(planned));
    TailJob(j);
    LostTailTouched(j.planned, j.dirty, 30, 31, 4, 28);
    assert Rewritten(content, SnapshotOf(j.planned, view), 31, 4, j.planned)[28] == 0;
  }

  method TailWrites(ws: WriteState)
    requires ws.Valid() && ws.Honest() && !ws.poisoned && ws.dirtyRanges == [] && ws.baseTemp == None
    requires ws.baseSize == ws.logicalSize == 30
    modifies ws
    ensures ws.Valid() && ws.Honest() && !ws.poisoned && ws.baseTemp == None && ws.NothingUncovered()
    ensures ws.logicalSize == 31 && ws.dirtyRanges == [ByteRange(0, 1), ByteRange(30, 31)]
  {
    WriteFirst(ws, [7], 0);
    ghost var first := ws.dirtyRanges;
    var _, err, list := ws.Write([7], 30, false);
    ghost var marked := [ByteRange(0, 1), ByteRange(30, 31)];
    forall x ensures Covers(marked, x) <==> Covers(first, x) || 30 <= x < 31 {
      CoversSingle(first[0], x);
      if InRange(marked[0], x) || InRange(marked[1], x) { assert Covers(marked, x); }
    }
    UnionUnique(list, marked, first, 30, 31);
  }

  // ----- a batch nobody takes

  /** Ten bytes appended to a file of a hundred through pages of four. The network is fine, and no
      commit ever goes through. */
  method RefusedPatchRun(hub: Hub, data: seq<Byte>) returns (first: Errno, second: Errno)
    requires hub.reliable && |hub.content| == 100 && hub.fates == [] && |data| == 10
    modifies hub
    ensures first != OK && second != OK && hub.content == old(hub.content)
  {
    var ws := new WriteState(hub, 100, 4, 1000, false);
    var h := new Handle(ws);
    WriteFirst(ws, data, 100);
    ghost var view, content := ws.View(), hub.content;
    label Attempt:
    var planned;
    planned, first := h.Commit();
    RefusedJob(old@Attempt(h.JobOf(planned)), content, view, []);
    RightInSync(old@Attempt(h.JobOf(planned)));
    label Retry:
    planned, second := h.Commit();
    RefusedJob(old@Retry(h.JobOf(planned)), content, view, []);
  }

  lemma RefusedJob(j: Job, content: seq<Byte>, view: seq<Byte>, fates: seq<Fate>)
    requires IsJob(j) && j.dirty == [ByteRange(100, 110)] && j.baseSize == 100 == |content| && j.size == 110 == |view| && j.page == 4
    ensures j.rung == PatchRung && SendJob(j, content, view, fates) == Sent(content, false, Later(fates))
  {
    SingleRung(j);
    PatchTakenIff(j.dirty, 4, 100, 100, view);
    assert LastPage(100, 110, 4) == 108;
  }
}
